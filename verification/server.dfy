/** The current key-value server: a storage map fronted by a bounded cache
    whose replacement policy is FIFO, LRU or LFU. Every request is one
    atomic step from state to state. */
module Server {
  import opened Java
  import opened Store

  /** The fields of the server that requests touch. `cache` is null when
      the server was built with a non-positive cache size; the FIFO queue
      and the frequency map are only ever read under their own strategy. */
  datatype State = State(
    cacheSize: int,
    strategy: CacheStrategy,
    storage: Table,
    cache: Option<Table>,
    fifoQueue: seq<string>,
    accessFrequency: map<string, int>)

  /** What holds of every state the server can reach. */
  predicate Valid(s: State)
  {
    && IsInt(s.cacheSize)
    && (s.cache.Some? <==> s.cacheSize > 0)
    && (forall key :: key in s.accessFrequency ==> IsInt(s.accessFrequency[key]))
    && (s.cache.Some? ==> PolicyValid(s.strategy, s.cacheSize, s.cache.value, s.fifoQueue, s.accessFrequency))
  }

  /** The per-strategy part of `Valid`: every cached key is queued (FIFO),
      the cache is within bounds (LRU), every cached key and only those has
      a frequency (LFU), nothing is ever cached (None). */
  predicate PolicyValid(strategy: CacheStrategy, cacheSize: int, cache: Table,
                        fifoQueue: seq<string>, freq: map<string, int>)
  {
    match strategy
    case FIFO => forall key :: key in cache ==> key in fifoQueue
    case LRU => |cache| <= cacheSize
    case LFU => cache.Keys == freq.Keys
    case NoCache => cache == map[]
  }

  /** `new KVServer(port, cacheSize, strategy)`: the strategy name must be
      exactly a constant's name, or the constructor throws; a cache exists
      only for a positive size. */
  function Init(cacheSize: int, strategy: string): (r: Option<State>)
    requires IsInt(cacheSize)
    ensures r.Some? <==> StrategyValueOf(strategy).Some?
    ensures r.Some? ==> Valid(r.value) && r.value.strategy.Name() == strategy
    ensures r.Some? ==> r.value.storage == map[] && r.value.cacheSize == cacheSize
    ensures r.Some? ==> (r.value.cache.Some? <==> cacheSize > 0)
    ensures r.Some? && r.value.cache.Some? ==> r.value.cache.value == map[]
  {
    match StrategyValueOf(strategy)
    case None => None
    case Some(st) =>
      Some(State(cacheSize, st, map[], if cacheSize > 0 then Some(map[]) else None, [], map[]))
  }

  /** `inStorage(key)`: a key that is not stored reads as null from
      storage, and while cache and storage agree every key that reads
      non-null is stored. */
  predicate InStorage(s: State, key: string): (r: bool)
    ensures !r ==> Lookup(s.storage, key).None?
    ensures Coherent(s.cache, s.storage) && Read(s.cache, s.storage, key).Some? ==> r
  {
    key in s.storage
  }

  /** `inCache(key)`: only a server with a cache caches anything, and a
      cached non-null value is what a read answers. */
  predicate InCache(s: State, key: string): (r: bool)
    ensures r ==> s.cache.Some?
    ensures Valid(s) && s.cacheSize <= 0 ==> !r
    ensures s.cache.Some? && Lookup(s.cache.value, key).Some? ==>
      r && Read(s.cache, s.storage, key) == Lookup(s.cache.value, key)
  {
    s.cache.Some? && key in s.cache.value
  }

  /** `getKV(key)` */
  function GetKV(s: State, key: string): (r: JString)
    ensures s.cache.None? ==> r == Lookup(s.storage, key)
    ensures Coherent(s.cache, s.storage) ==> r == Lookup(s.storage, key)
    ensures r.Some? ==> InCache(s, key) || InStorage(s, key)
  {
    Read(s.cache, s.storage, key)
  }

  /** `updateCacheFIFO` on the cache and the queue: a key not yet cached
      arriving while the queue is at least `cacheSize` long evicts the key
      at the queue head; the key is then cached and appended to the queue,
      even when it was cached already. */
  function FifoAdmit(cache: Table, queue: seq<string>, cacheSize: int, key: string, value: JString)
    : (r: (Table, seq<string>))
    requires cacheSize > 0
    ensures key in r.0 && r.0[key] == value
    ensures key in cache || |queue| < cacheSize ==>
      r.1 == queue + [key] && r.0.Keys == cache.Keys + {key}
    ensures key !in cache && |queue| >= cacheSize ==>
      r.1 == queue[1..] + [key] && r.0.Keys == cache.Keys - {queue[0]} + {key}
  {
    if key !in cache && |queue| >= cacheSize then
      ((cache - {queue[0]})[key := value], queue[1..] + [key])
    else
      (cache[key := value], queue + [key])
  }

  /** FIFO admission leaves every other cached value alone, and keeps every
      cached key queued. */
  lemma FifoAdmitKeeps(cache: Table, queue: seq<string>, cacheSize: int, key: string, value: JString)
    requires cacheSize > 0
    ensures var r := FifoAdmit(cache, queue, cacheSize, key, value);
      forall x :: x in r.0 && x != key ==> x in cache && r.0[x] == cache[x]
    ensures var r := FifoAdmit(cache, queue, cacheSize, key, value);
      (forall x :: x in cache ==> x in queue) ==> forall x :: x in r.0 ==> x in r.1
  {
    if key !in cache && |queue| >= cacheSize {
      assert queue == [queue[0]] + queue[1..];
    }
  }

  /** `updateCacheLRU` on the cache: a cached key keeps its place among the
      keys; a new key entering a full cache pushes out the key the
      `HashMap` iterates first, which Java leaves unspecified. */
  ghost function LruAdmit(cache: Table, cacheSize: int, key: string, value: JString): (r: Table)
    requires cacheSize > 0
    ensures key in r && r[key] == value
    ensures forall x :: x in r && x != key ==> x in cache && r[x] == cache[x]
  {
    if key !in cache && |cache| >= cacheSize then
      (cache - {IterationOrder(cache.Keys)[0]})[key := value]
    else
      cache[key := value]
  }

  /** LRU admission replaces nothing when the key is cached or there is
      room; otherwise exactly one old key makes way, so the cache never
      outgrows `cacheSize`. */
  lemma LruAdmitKeys(cache: Table, cacheSize: int, key: string, value: JString)
    requires cacheSize > 0
    ensures key in cache || |cache| < cacheSize ==>
      LruAdmit(cache, cacheSize, key, value).Keys == cache.Keys + {key}
    ensures key !in cache && |cache| >= cacheSize ==>
      exists victim :: victim in cache &&
        LruAdmit(cache, cacheSize, key, value).Keys == cache.Keys - {victim} + {key}
    ensures |cache| <= cacheSize ==> |LruAdmit(cache, cacheSize, key, value)| <= cacheSize
  {
    if key !in cache && |cache| >= cacheSize {
      var victim := IterationOrder(cache.Keys)[0];
      CardRemove(cache, victim);
      assert LruAdmit(cache, cacheSize, key, value).Keys == cache.Keys - {victim} + {key};
    }
  }

  /** `findLeastFrequentKeyLFU` over the entries in the order `order`: the
      first key whose frequency is below every earlier one and below
      `Integer.MAX_VALUE`; null when no frequency is below that bound. */
  function FindLeastFrequent(freq: map<string, int>, order: seq<string>): (r: Option<string>)
    requires forall i :: 0 <= i < |order| ==> order[i] in freq
    ensures r.None? <==> forall i :: 0 <= i < |order| ==> freq[order[i]] >= IntMax
    ensures r.Some? ==> r.value in order && freq[r.value] < IntMax
    ensures r.Some? ==> forall i :: 0 <= i < |order| ==> freq[r.value] <= freq[order[i]]
    decreases |order|
  {
    if order == [] then None
    else
      var best := FindLeastFrequent(freq, order[..|order| - 1]);
      var minFreq := if best.Some? then freq[best.value] else IntMax;
      var last := order[|order| - 1];
      if freq[last] < minFreq then Some(last) else best
  }

  /** The key the LFU scan picks among all tracked keys, in the `HashMap`'s
      iteration order: one of least frequency, or null when every
      frequency is `Integer.MAX_VALUE`. */
  ghost function LeastFrequentKey(freq: map<string, int>): (r: Option<string>)
    ensures r.None? <==> forall x :: x in freq ==> freq[x] >= IntMax
    ensures r.Some? ==> r.value in freq && forall y :: y in freq ==> freq[r.value] <= freq[y]
  {
    var order := IterationOrder(freq.Keys);
    var r := FindLeastFrequent(freq, order);
    assert forall y :: y in freq ==> exists i :: 0 <= i < |order| && order[i] == y;
    r
  }

  /** `updateCacheLFU` on the cache and the frequencies: a cached key gets
      the new value and one more use; a new key entering a full cache first
      evicts a least-frequently-used key, unless every frequency sits at
      `Integer.MAX_VALUE`, and then starts at frequency 1. */
  ghost function LfuAdmit(cache: Table, freq: map<string, int>, cacheSize: int, key: string, value: JString)
    : (r: (Table, map<string, int>))
    requires cacheSize > 0
    requires cache.Keys <= freq.Keys
    requires forall x :: x in freq ==> IsInt(freq[x])
    ensures key in r.0 && r.0[key] == value && key in r.1
    ensures key in cache ==> r.1[key] == IntInc(freq[key])
    ensures key !in cache ==> r.1[key] == 1
    ensures forall x :: x in r.1 ==> IsInt(r.1[x])
  {
    if key in cache then
      (cache[key := value], freq[key := IntInc(freq[key])])
    else if |cache| >= cacheSize then
      match LeastFrequentKey(freq)
      case None => (cache[key := value], freq[key := 1])
      case Some(victim) => ((cache - {victim})[key := value], (freq - {victim})[key := 1])
    else
      (cache[key := value], freq[key := 1])
  }

  /** LFU admission leaves every other key's value and frequency alone. */
  lemma LfuAdmitUnchanged(cache: Table, freq: map<string, int>, cacheSize: int, key: string, value: JString)
    requires cacheSize > 0
    requires cache.Keys <= freq.Keys
    requires forall x :: x in freq ==> IsInt(freq[x])
    ensures var r := LfuAdmit(cache, freq, cacheSize, key, value);
      forall x :: x in r.0 && x != key ==> x in cache && r.0[x] == cache[x]
    ensures var r := LfuAdmit(cache, freq, cacheSize, key, value);
      forall x :: x in r.1 && x != key ==> x in freq && r.1[x] == freq[x]
  {
  }

  /** LFU admission keeps cache and frequency map over the same keys. */
  lemma LfuAdmitLockstep(cache: Table, freq: map<string, int>, cacheSize: int, key: string, value: JString)
    requires cacheSize > 0
    requires cache.Keys <= freq.Keys <= cache.Keys + {key}
    requires forall x :: x in freq ==> IsInt(freq[x])
    ensures var r := LfuAdmit(cache, freq, cacheSize, key, value); r.0.Keys == r.1.Keys
  {
  }

  /** LFU admission replaces nothing when the key is cached or there is
      room; otherwise the key the scan picks, one of least frequency, makes
      way. */
  lemma LfuAdmitKeys(cache: Table, freq: map<string, int>, cacheSize: int, key: string, value: JString)
    requires cacheSize > 0
    requires cache.Keys <= freq.Keys
    requires forall x :: x in freq ==> IsInt(freq[x])
    ensures var r := LfuAdmit(cache, freq, cacheSize, key, value);
      key in cache || |cache| < cacheSize ==> r.0.Keys == cache.Keys + {key}
    ensures var r := LfuAdmit(cache, freq, cacheSize, key, value);
      key !in cache && |cache| >= cacheSize && LeastFrequentKey(freq).Some? ==>
        r.0.Keys == cache.Keys - {LeastFrequentKey(freq).value} + {key}
  {
  }

  /** `updateCache`: the strategy's admission applied to a state that has
      a cache; None caches nothing. */
  ghost function UpdateCache(s: State, key: string, value: JString): (t: State)
    requires s.cache.Some? && s.cacheSize > 0
    requires s.strategy == LFU ==> s.cache.value.Keys <= s.accessFrequency.Keys
    requires forall x :: x in s.accessFrequency ==> IsInt(s.accessFrequency[x])
    ensures t.storage == s.storage && t.cacheSize == s.cacheSize && t.strategy == s.strategy
    ensures t.cache.Some?
    ensures s.strategy != NoCache ==> key in t.cache.value && t.cache.value[key] == value
    ensures s.strategy == NoCache ==> t == s
  {
    var cache := s.cache.value;
    match s.strategy
    case FIFO =>
      var r := FifoAdmit(cache, s.fifoQueue, s.cacheSize, key, value);
      s.(cache := Some(r.0), fifoQueue := r.1)
    case LRU =>
      s.(cache := Some(LruAdmit(cache, s.cacheSize, key, value)))
    case LFU =>
      var r := LfuAdmit(cache, s.accessFrequency, s.cacheSize, key, value);
      s.(cache := Some(r.0), accessFrequency := r.1)
    case NoCache => s
  }

  /** The first half of `putKV(key, value)`: a null value is a delete,
      which takes the key out of storage and cache; then, delete or not,
      the key is stored with the value. */
  function Prepare(s: State, key: string, value: JString): (p: State)
    ensures p.storage == s.storage[key := value]
    ensures p.cacheSize == s.cacheSize && p.strategy == s.strategy
    ensures p.fifoQueue == s.fifoQueue && p.accessFrequency == s.accessFrequency
    ensures p.cache.Some? <==> s.cache.Some?
    ensures value.Some? ==> p.cache == s.cache
    ensures value.None? && s.cache.Some? ==> p.cache.value == s.cache.value - {key}
  {
    var removed :=
      if value.None? then
        s.(storage := s.storage - {key},
           cache := if s.cache.Some? then Some(s.cache.value - {key}) else None)
      else s;
    assert removed.storage[key := value] == s.storage[key := value];
    removed.(storage := removed.storage[key := value])
  }

  /** Admitting the key after `Prepare` keeps the state valid. */
  lemma PreparedAdmissionValid(s: State, key: string, value: JString)
    requires Valid(s)
    ensures var p := Prepare(s, key, value);
      p.cache.Some? ==> p.cacheSize > 0 && (p.strategy == LFU ==> p.cache.value.Keys <= p.accessFrequency.Keys)
    ensures var p := Prepare(s, key, value); p.cache.None? ==> Valid(p)
    ensures var p := Prepare(s, key, value); p.cache.Some? ==> Valid(UpdateCache(p, key, value))
  {
    var p := Prepare(s, key, value);
    if p.cache.Some? {
      var before := p.cache.value;
      RemoveShrinks(s.cache, key);
      match s.strategy
      case FIFO =>
        FifoAdmitKeeps(before, s.fifoQueue, s.cacheSize, key, value);
      case LRU =>
        CardKeysAtMost(before, s.cache.value);
        LruAdmitKeys(before, s.cacheSize, key, value);
      case LFU =>
        assert s.accessFrequency.Keys <= before.Keys + {key};
        LfuAdmitLockstep(before, s.accessFrequency, s.cacheSize, key, value);
      case NoCache =>
    }
  }

  /** `putKV(key, value)`. A null value is a delete: the key leaves storage
      and cache, but nothing returns, so the code goes on to store the key
      with a null value and to admit it to the cache. */
  ghost function PutKV(s: State, key: string, value: JString): (t: State)
    requires Valid(s)
    ensures Valid(t)
    ensures t.cacheSize == s.cacheSize && t.strategy == s.strategy
  {
    var p := Prepare(s, key, value);
    PreparedAdmissionValid(s, key, value);
    if p.cache.Some? then UpdateCache(p, key, value) else p
  }

  /** `putKV` stores the value, null included, under the key, and a read
      of the key then answers that value. */
  lemma PutKVStores(s: State, key: string, value: JString)
    requires Valid(s)
    ensures PutKV(s, key, value).storage == s.storage[key := value]
    ensures InStorage(PutKV(s, key, value), key)
    ensures GetKV(PutKV(s, key, value), key) == value
    ensures PutKV(s, key, value).cacheSize == s.cacheSize
    ensures PutKV(s, key, value).strategy == s.strategy
  {
  }

  /** `updateCache` touches no cached key other than the one admitted; a
      key it keeps has the value it had. */
  lemma UpdateCacheKeepsOthers(s: State, key: string, value: JString)
    requires s.cache.Some? && s.cacheSize > 0
    requires s.strategy == LFU ==> s.cache.value.Keys <= s.accessFrequency.Keys
    requires forall x :: x in s.accessFrequency ==> IsInt(s.accessFrequency[x])
    ensures forall x :: x in UpdateCache(s, key, value).cache.value && x != key ==>
      x in s.cache.value && UpdateCache(s, key, value).cache.value[x] == s.cache.value[x]
  {
    match s.strategy
    case FIFO => FifoAdmitKeeps(s.cache.value, s.fifoQueue, s.cacheSize, key, value);
    case LRU =>
    case LFU => LfuAdmitUnchanged(s.cache.value, s.accessFrequency, s.cacheSize, key, value);
    case NoCache =>
  }

  /** A put keeps cache and storage in agreement: the new value lands in
      both, and every other cached key keeps the value it had. */
  lemma PutKeepsCoherent(s: State, key: string, value: JString)
    requires Valid(s) && Coherent(s.cache, s.storage)
    ensures Coherent(PutKV(s, key, value).cache, PutKV(s, key, value).storage)
  {
    var p := Prepare(s, key, value);
    PreparedAdmissionValid(s, key, value);
    if p.cache.Some? {
      var u := UpdateCache(p, key, value);
      assert PutKV(s, key, value) == u;
      UpdateCacheKeepsOthers(p, key, value);
      AdmitKeepsCoherent(s.cache.value, s.storage, u.cache.value, key, value);
    }
  }

  /** While cache and storage agree, a put leaves the reads of every other
      key as they were. */
  lemma PutLeavesOtherReads(s: State, key: string, value: JString, other: string)
    requires Valid(s) && Coherent(s.cache, s.storage)
    requires other != key
    ensures GetKV(PutKV(s, key, value), other) == GetKV(s, other)
  {
    PutKeepsCoherent(s, key, value);
    var t := PutKV(s, key, value);
    CoherentReadIsStorage(s.cache, s.storage, other);
    CoherentReadIsStorage(t.cache, t.storage, other);
    PutKVStores(s, key, value);
  }

  /** Under LFU a put leaves the key tracked: a non-null put of a cached key
      adds one use, every other put starts the count at 1 (a delete drops
      the key from the cache first), and every other count stays. */
  lemma LfuPutFrequency(s: State, key: string, value: JString)
    requires Valid(s) && s.strategy == LFU && s.cache.Some?
    ensures var t := PutKV(s, key, value); key in t.accessFrequency && t.strategy == LFU
    ensures var t := PutKV(s, key, value);
      key in s.cache.value && value.Some? ==> t.accessFrequency[key] == IntInc(s.accessFrequency[key])
    ensures var t := PutKV(s, key, value);
      key !in s.cache.value || value.None? ==> t.accessFrequency[key] == 1
    ensures var t := PutKV(s, key, value);
      forall x :: x in t.accessFrequency && x != key ==> x in s.accessFrequency && t.accessFrequency[x] == s.accessFrequency[x]
  {
    var p := Prepare(s, key, value);
    PreparedAdmissionValid(s, key, value);
    LfuAdmitUnchanged(p.cache.value, p.accessFrequency, p.cacheSize, key, value);
  }

  /** Every LFU count stays at least 1, unless the put's own key already
      sits at `Integer.MAX_VALUE` and wraps. */
  lemma LfuCountsPositive(s: State, key: string, value: JString)
    requires Valid(s) && s.strategy == LFU && s.cache.Some?
    requires forall x :: x in s.accessFrequency ==> s.accessFrequency[x] >= 1
    requires key in s.accessFrequency ==> s.accessFrequency[key] < IntMax
    ensures var t := PutKV(s, key, value); forall x :: x in t.accessFrequency ==> t.accessFrequency[x] >= 1
  {
    LfuPutFrequency(s, key, value);
  }

  /** Under LFU the cache stays within `cacheSize` as long as every count
      is below `Integer.MAX_VALUE`, so that the scan finds a victim. */
  lemma LfuPutBounded(s: State, key: string, value: JString)
    requires Valid(s) && s.strategy == LFU && s.cache.Some?
    requires |s.cache.value| <= s.cacheSize
    requires forall x :: x in s.accessFrequency ==> s.accessFrequency[x] < IntMax
    ensures |PutKV(s, key, value).cache.value| <= s.cacheSize
  {
    var p := Prepare(s, key, value);
    PreparedAdmissionValid(s, key, value);
    var before := p.cache.value;
    RemoveShrinks(s.cache, key);
    LfuAdmitKeys(before, p.accessFrequency, s.cacheSize, key, value);
    var r := LfuAdmit(before, p.accessFrequency, s.cacheSize, key, value);
    if key in before || |before| < s.cacheSize {
      CardKeysAtMost(r.0, before[key := value]);
      assert |before[key := value]| <= s.cacheSize by {
        if key !in before {
          assert (before[key := value]).Keys == before.Keys + {key};
        }
      }
    } else {
      assert key in s.cache.value ==> |before| < s.cacheSize;
      var victim := LeastFrequentKey(p.accessFrequency);
      assert victim.Some? by {
        assert before != map[];
        var x :| x in before;
      }
      assert victim.value in before;
      CardRemove(before, victim.value);
      CardKeysAtMost(r.0, (before - {victim.value})[key := value]);
    }
  }

  /** A map whose keys are among another's is no larger. */
  lemma CardKeysAtMost(a: Table, b: Table)
    requires a.Keys <= b.Keys
    ensures |a| <= |b|
  {
    assert |a| == |a.Keys| && |b| == |b.Keys|;
    var extra := b.Keys - a.Keys;
    assert b.Keys == a.Keys + extra;
  }

  /** `clearCache`: cache and policy metadata are emptied, storage is kept. */
  function ClearCache(s: State): (t: State)
    requires Valid(s)
    ensures Valid(t)
    ensures t.storage == s.storage
    ensures t.cache.Some? <==> s.cache.Some?
    ensures forall key :: !InCache(t, key)
    ensures t.fifoQueue == [] && t.accessFrequency == map[]
  {
    s.(cache := if s.cache.Some? then Some(map[]) else None, fifoQueue := [], accessFrequency := map[])
  }

  /** `clearStorage`: storage is emptied, the cache is kept. */
  function ClearStorage(s: State): (t: State)
    requires Valid(s)
    ensures Valid(t)
    ensures t.storage == map[]
    ensures t.cache == s.cache
    ensures forall key :: !InStorage(t, key)
  {
    s.(storage := map[])
  }

  /** After `clearStorage`, a key whose cached value is non-null still reads
      as that value, and every other key reads as null. */
  lemma ClearStorageKeepsCachedReadable(s: State, key: string)
    requires Valid(s)
    ensures GetKV(ClearStorage(s), key) ==
      (if s.cache.Some? && key in s.cache.value then s.cache.value[key] else None)
  {
  }

  /** A delete leaves the key behind: storage maps it to null, so
      `inStorage` still answers true, while `getKV` answers null. */
  lemma DeleteLeavesNullEntry(s: State, key: string)
    requires Valid(s)
    ensures InStorage(PutKV(s, key, None), key)
    ensures PutKV(s, key, None).storage[key] == None
    ensures GetKV(PutKV(s, key, None), key) == None
  {
    PutKVStores(s, key, None);
  }

  /** A delete as the code evidently means it: the key leaves storage,
      cache and frequency map, and nothing is written back. */
  function DeleteKV(s: State, key: string): (t: State)
    requires Valid(s)
    ensures Valid(t)
    ensures t.storage == s.storage - {key}
    ensures !InStorage(t, key) && !InCache(t, key)
    ensures GetKV(t, key) == None
    ensures forall other :: other != key && InCache(s, other) ==>
      InCache(t, other) && t.cache.value[other] == s.cache.value[other]
  {
    RemoveShrinks(s.cache, key);
    s.(storage := s.storage - {key},
       cache := if s.cache.Some? then Some(s.cache.value - {key}) else None,
       accessFrequency := s.accessFrequency - {key})
  }

  /** `updateCacheFIFO` as evidently intended: a key already cached gets
      the new value and keeps its place in the queue; any other key is
      admitted as before. */
  function FifoAdmitOnce(cache: Table, queue: seq<string>, cacheSize: int, key: string, value: JString)
    : (r: (Table, seq<string>))
    requires cacheSize > 0
    ensures key in r.0 && r.0[key] == value
    ensures key in cache ==> r.1 == queue && r.0.Keys == cache.Keys
    ensures key !in cache ==> r == FifoAdmit(cache, queue, cacheSize, key, value)
  {
    if key in cache then (cache[key := value], queue)
    else FifoAdmit(cache, queue, cacheSize, key, value)
  }

  /** The FIFO bound: the queue is no longer than the cache may be, and
      holds every cached key. */
  predicate FifoBound(cache: Table, queue: seq<string>, cacheSize: int)
  {
    |queue| <= cacheSize && forall key :: key in cache ==> key in queue
  }

  /** The corrected FIFO admission keeps the queue bound, and with it the
      cache within `cacheSize`. */
  lemma FifoAdmitOnceBounded(cache: Table, queue: seq<string>, cacheSize: int, key: string, value: JString)
    requires cacheSize > 0 && FifoBound(cache, queue, cacheSize)
    ensures var r := FifoAdmitOnce(cache, queue, cacheSize, key, value);
      FifoBound(r.0, r.1, cacheSize) && |r.0| <= cacheSize
  {
    var r := FifoAdmitOnce(cache, queue, cacheSize, key, value);
    if key !in cache {
      FifoAdmitNewBounded(cache, queue, cacheSize, key, value);
    }
    CardAtMostLength(r.0.Keys, r.1);
  }

  /** Admitting a key not yet cached keeps the queue bound: at a full
      queue the head leaves as the key joins. */
  lemma FifoAdmitNewBounded(cache: Table, queue: seq<string>, cacheSize: int, key: string, value: JString)
    requires cacheSize > 0 && FifoBound(cache, queue, cacheSize) && key !in cache
    ensures var r := FifoAdmit(cache, queue, cacheSize, key, value); FifoBound(r.0, r.1, cacheSize)
  {
    if |queue| >= cacheSize {
      assert forall x :: x in queue && x != queue[0] ==> x in queue[1..] by {
        assert queue == [queue[0]] + queue[1..];
      }
    }
  }

  /** LFU admission keeps a cache within `cacheSize` when it tracks exactly
      the cached keys and no count has reached `Integer.MAX_VALUE`. */
  lemma LfuAdmitBounded(cache: Table, freq: map<string, int>, cacheSize: int, key: string, value: JString)
    requires cacheSize > 0 && cache.Keys == freq.Keys && |cache| <= cacheSize
    requires forall x :: x in freq ==> IsInt(freq[x]) && freq[x] < IntMax
    ensures |LfuAdmit(cache, freq, cacheSize, key, value).0| <= cacheSize
  {
    var r := LfuAdmit(cache, freq, cacheSize, key, value);
    LfuAdmitKeys(cache, freq, cacheSize, key, value);
    if key in cache || |cache| < cacheSize {
      CardKeysAtMost(r.0, cache[key := value]);
      assert |cache[key := value]| <= cacheSize by {
        if key !in cache {
          assert cache[key := value].Keys == cache.Keys + {key};
        }
      }
    } else {
      var victim := LeastFrequentKey(freq);
      assert victim.Some? by {
        var x :| x in cache;
      }
      CardRemove(cache, victim.value);
      CardKeysAtMost(r.0, (cache - {victim.value})[key := value]);
    }
  }

  /** `updateCache` with the corrected FIFO admission. */
  ghost function FixedUpdateCache(s: State, key: string, value: JString): (t: State)
    requires Valid(s) && s.cache.Some?
    ensures Valid(t)
    ensures t.storage == s.storage && t.cacheSize == s.cacheSize && t.strategy == s.strategy
    ensures t.accessFrequency.Keys <= s.accessFrequency.Keys + {key}
    ensures s.strategy != NoCache ==> key in t.cache.value && t.cache.value[key] == value
    ensures forall x :: x in t.cache.value && x != key ==>
      x in s.cache.value && t.cache.value[x] == s.cache.value[x]
  {
    var cache := s.cache.value;
    UpdateCacheKeepsOthers(s, key, value);
    match s.strategy
    case FIFO =>
      FifoAdmitKeeps(cache, s.fifoQueue, s.cacheSize, key, value);
      var r := FifoAdmitOnce(cache, s.fifoQueue, s.cacheSize, key, value);
      s.(cache := Some(r.0), fifoQueue := r.1)
    case LRU =>
      LruAdmitKeys(cache, s.cacheSize, key, value);
      UpdateCache(s, key, value)
    case LFU =>
      LfuAdmitLockstep(cache, s.accessFrequency, s.cacheSize, key, value);
      UpdateCache(s, key, value)
    case NoCache => s
  }

  /** `putKV` as evidently intended: a null value removes the key and
      returns; any other value is stored and admitted, FIFO keeping a
      cached key's place in the queue. */
  ghost function PutOrDeleteKV(s: State, key: string, value: JString): (t: State)
    requires Valid(s)
    ensures Valid(t)
    ensures t.cacheSize == s.cacheSize && t.strategy == s.strategy
    ensures value.None? ==> !InStorage(t, key) && !InCache(t, key) && GetKV(t, key) == None
    ensures value.Some? ==> t.storage == s.storage[key := value] && GetKV(t, key) == value
    ensures forall x :: x != key && InCache(t, x) ==> InCache(s, x) && t.cache.value[x] == s.cache.value[x]
  {
    if value.None? then DeleteKV(s, key)
    else
      var p := s.(storage := s.storage[key := value]);
      if p.cache.Some? then FixedUpdateCache(p, key, value) else p
  }

  /** The bound the strategies are meant to keep: the cache holds at most
      `cacheSize` keys, and under FIFO so does the queue. */
  predicate Bounded(s: State)
  {
    s.cache.Some? ==> |s.cache.value| <= s.cacheSize && (s.strategy == FIFO ==> |s.fifoQueue| <= s.cacheSize)
  }

  /** The corrected put keeps the bound under every strategy, under LFU as
      long as no count has reached `Integer.MAX_VALUE`. */
  lemma PutOrDeleteBounded(s: State, key: string, value: JString)
    requires Valid(s) && Bounded(s)
    requires s.strategy == LFU ==> forall x :: x in s.accessFrequency ==> s.accessFrequency[x] < IntMax
    ensures Bounded(PutOrDeleteKV(s, key, value))
  {
    if value.None? {
      RemoveShrinks(s.cache, key);
    } else if s.cache.Some? {
      var cache := s.cache.value;
      match s.strategy
      case FIFO => FifoAdmitOnceBounded(cache, s.fifoQueue, s.cacheSize, key, value);
      case LRU => LruAdmitKeys(cache, s.cacheSize, key, value);
      case LFU => LfuAdmitBounded(cache, s.accessFrequency, s.cacheSize, key, value);
      case NoCache =>
    }
  }

  /** Every count is at most `n`. */
  predicate CountsAtMost(s: State, n: int)
  {
    forall x :: x in s.accessFrequency ==> s.accessFrequency[x] <= n
  }

  /** A corrected put raises any count by at most one. */
  lemma PutOrDeleteCounts(s: State, key: string, value: JString, n: int)
    requires Valid(s) && CountsAtMost(s, n) && 0 <= n < IntMax
    ensures CountsAtMost(PutOrDeleteKV(s, key, value), n + 1)
  {
    if value.Some? && s.cache.Some? && s.strategy == LFU {
      LfuAdmitUnchanged(s.cache.value, s.accessFrequency, s.cacheSize, key, value);
    }
  }

  /** The corrected server serving a run of puts and deletes in order. */
  ghost function ServeAll(s: State, requests: seq<(string, JString)>): (t: State)
    requires Valid(s)
    ensures Valid(t)
    ensures t.cacheSize == s.cacheSize && t.strategy == s.strategy
    decreases |requests|
  {
    if requests == [] then s
    else ServeAll(PutOrDeleteKV(s, requests[0].0, requests[0].1), requests[1..])
  }

  /** A run keeps the bound while the counts cannot reach
      `Integer.MAX_VALUE`. */
  lemma {:induction false} ServeAllBounded(s: State, requests: seq<(string, JString)>, n: nat)
    requires Valid(s) && Bounded(s) && CountsAtMost(s, n)
    requires n + |requests| < IntMax
    ensures Bounded(ServeAll(s, requests))
    decreases |requests|
  {
    if requests != [] {
      var (key, value) := requests[0];
      PutOrDeleteBounded(s, key, value);
      PutOrDeleteCounts(s, key, value, n);
      ServeAllBounded(PutOrDeleteKV(s, key, value), requests[1..], n + 1);
    }
  }

  /** The corrected server, built and then sent fewer than
      `Integer.MAX_VALUE` requests, never holds more than `cacheSize` keys in
      its cache, whatever its strategy. */
  lemma CorrectedServerBounded(cacheSize: int, strategy: string, requests: seq<(string, JString)>)
    requires IsInt(cacheSize) && Init(cacheSize, strategy).Some?
    requires |requests| < IntMax
    ensures var t := ServeAll(Init(cacheSize, strategy).value, requests);
      t.cache.Some? ==> |t.cache.value| <= cacheSize
  {
    ServeAllBounded(Init(cacheSize, strategy).value, requests, 0);
  }

  /** Taking a key out of a cache removes that key and no other, and does
      not make the cache larger. */
  lemma RemoveShrinks(cache: Option<Table>, key: string)
    ensures cache.Some? ==> (cache.value - {key}).Keys == cache.value.Keys - {key}
    ensures cache.Some? ==> |cache.value - {key}| <= |cache.value|
  {
    if cache.Some? {
      var rest := cache.value - {key};
      assert rest.Keys == cache.value.Keys - {key};
      CardKeysAtMost(rest, cache.value);
    }
  }

  /** Puts of `value` under each key of `keys` in turn. */
  ghost function PutAll(s: State, keys: seq<string>, value: JString): (t: State)
    requires Valid(s)
    ensures Valid(t)
    ensures t.cacheSize == s.cacheSize && t.strategy == s.strategy
    decreases |keys|
  {
    if keys == [] then s
    else
      PutAll(PutKV(s, keys[0], value), keys[1..], value)
  }

  /** One FIFO put of a non-null value is `updateCacheFIFO` on the cache
      and the queue. */
  lemma FifoPut(s: State, key: string, value: JString)
    requires Valid(s) && s.strategy == FIFO && s.cache.Some? && value.Some?
    ensures var t := PutKV(s, key, value);
      var r := FifoAdmit(s.cache.value, s.fifoQueue, s.cacheSize, key, value);
      t.cache == Some(r.0) && t.fifoQueue == r.1 && t.strategy == FIFO && t.cacheSize == s.cacheSize
  {
  }

  /** `updateCacheFIFO` applied for each key of `keys` in turn. */
  function FifoAdmitAll(cache: Table, queue: seq<string>, cacheSize: int, keys: seq<string>, value: JString)
    : (Table, seq<string>)
    requires cacheSize > 0
    decreases |keys|
  {
    if keys == [] then (cache, queue)
    else
      var r := FifoAdmit(cache, queue, cacheSize, keys[0], value);
      FifoAdmitAll(r.0, r.1, cacheSize, keys[1..], value)
  }

  /** A run of non-null FIFO puts acts on cache and queue exactly as
      `updateCacheFIFO` does, key after key. */
  lemma {:induction false} PutAllFifo(s: State, keys: seq<string>, value: JString)
    requires Valid(s) && s.strategy == FIFO && s.cache.Some? && value.Some?
    ensures var t := PutAll(s, keys, value);
      var r := FifoAdmitAll(s.cache.value, s.fifoQueue, s.cacheSize, keys, value);
      t.cache == Some(r.0) && t.fifoQueue == r.1
    decreases |keys|
  {
    if keys != [] {
      FifoPut(s, keys[0], value);
      PutAllFifo(PutKV(s, keys[0], value), keys[1..], value);
    }
  }

  /** The four admissions of the overflow run, one at a time. */
  lemma FifoOverflowSteps(a: string, b: string, c: string, v: JString)
    requires a != b && a != c && b != c
    ensures var r1 := FifoAdmit(map[], [], 1, a, v);
      var r2 := FifoAdmit(r1.0, r1.1, 1, a, v);
      var r3 := FifoAdmit(r2.0, r2.1, 1, b, v);
      var r4 := FifoAdmit(r3.0, r3.1, 1, c, v);
      r4.0.Keys == {b, c}
  {
    var r1 := FifoAdmit(map[], [], 1, a, v);
    assert r1.1 == [a] && r1.0.Keys == {a};
    var r2 := FifoAdmit(r1.0, r1.1, 1, a, v);
    assert r2.1 == [a, a] && r2.0.Keys == {a};
    var r3 := FifoAdmit(r2.0, r2.1, 1, b, v);
    assert r3.1 == [a, b] && r3.0.Keys == {b};
  }

  /** FIFO re-queues a key that is already cached, so the queue outgrows
      the cache and a later eviction hits a key already gone: with cache
      size 1, admitting A, A, B, C (distinct keys) leaves B and C both
      cached. */
  lemma FifoOverflowExample(a: string, b: string, c: string, v: JString)
    requires a != b && a != c && b != c
    ensures var r := FifoAdmitAll(map[], [], 1, [a, a, b, c], v);
      r.0.Keys == {b, c} && |r.0| > 1
  {
    var r1 := FifoAdmit(map[], [], 1, a, v);
    var r2 := FifoAdmit(r1.0, r1.1, 1, a, v);
    var r3 := FifoAdmit(r2.0, r2.1, 1, b, v);
    var r4 := FifoAdmit(r3.0, r3.1, 1, c, v);
    assert r4.0.Keys == {b, c} by { FifoOverflowSteps(a, b, c, v); }
    assert |r4.0| > 1 by { assert |r4.0.Keys| == 2; }
    FifoAdmitAllCons(r3.0, r3.1, 1, c, [], v);
    FifoAdmitAllCons(r2.0, r2.1, 1, b, [c], v);
    FifoAdmitAllCons(r1.0, r1.1, 1, a, [b, c], v);
    FifoAdmitAllCons(map[], [], 1, a, [a, b, c], v);
  }

  /** Admitting a list of keys admits its first key, then the rest. */
  lemma FifoAdmitAllCons(cache: Table, queue: seq<string>, cacheSize: int, key: string, keys: seq<string>, value: JString)
    requires cacheSize > 0
    ensures FifoAdmitAll(cache, queue, cacheSize, [key] + keys, value)
         == FifoAdmitAll(FifoAdmit(cache, queue, cacheSize, key, value).0,
                         FifoAdmit(cache, queue, cacheSize, key, value).1, cacheSize, keys, value)
  {
    assert ([key] + keys)[1..] == keys;
  }

  /** The same run through the server: a FIFO server with cache size 1
      that is sent puts of A, A, B and C holds two keys in its cache. */
  lemma FifoOverflowServer(a: string, b: string, c: string, v: string)
    requires a != b && a != c && b != c
    ensures Init(1, "FIFO").Some?
    ensures var t := PutAll(Init(1, "FIFO").value, [a, a, b, c], Some(v));
      t.cache.Some? && t.cache.value.Keys == {b, c} && |t.cache.value| > t.cacheSize
  {
    PutAllFifo(Init(1, "FIFO").value, [a, a, b, c], Some(v));
    FifoOverflowExample(a, b, c, Some(v));
  }
}
