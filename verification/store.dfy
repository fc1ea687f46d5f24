/** What both versions of the key-value server share: the cache strategies
    and the read path of `getKV`, which consults the cache first and the
    storage map second. */
module Store {
  import opened Java

  /** `IKVServer.CacheStrategy`; `NoCache` is the constant Java calls
      `None`. */
  datatype CacheStrategy = FIFO | LRU | LFU | NoCache
  {
    function Name(): string
    {
      match this
      case FIFO => "FIFO"
      case LRU => "LRU"
      case LFU => "LFU"
      case NoCache => "None"
    }
  }

  /** `CacheStrategy.valueOf(name)`: exact, case-sensitive; None where Java
      throws `IllegalArgumentException`. */
  function StrategyValueOf(name: string): (r: Option<CacheStrategy>)
    ensures r.Some? ==> r.value.Name() == name
  {
    if name == "FIFO" then Some(FIFO)
    else if name == "LRU" then Some(LRU)
    else if name == "LFU" then Some(LFU)
    else if name == "None" then Some(NoCache)
    else None
  }

  /** `valueOf` inverts `name()`. */
  lemma StrategyValueOfName(strategy: CacheStrategy)
    ensures StrategyValueOf(strategy.Name()) == Some(strategy)
  {
  }

  /** A `Map<String, String>` whose values may be null. */
  type Table = map<string, JString>

  /** `map.get(key)`: the value stored for `key`, null when there is none. */
  function Lookup(table: Table, key: string): (r: JString)
    ensures key !in table ==> r.None?
    ensures key in table ==> r == table[key]
  {
    if key in table then table[key] else None
  }

  /** `getKV(key)`: a non-null cached value wins; failing that, whatever
      storage holds for the key, which may itself be null. */
  function Read(cache: Option<Table>, storage: Table, key: string): (r: JString)
    ensures cache.Some? && key in cache.value && cache.value[key].Some? ==> r == cache.value[key]
    ensures !(cache.Some? && key in cache.value && cache.value[key].Some?) ==> r == Lookup(storage, key)
    ensures r.Some? ==> (cache.Some? && Lookup(cache.value, key) == r) || Lookup(storage, key) == r
  {
    var cached := if cache.Some? then Lookup(cache.value, key) else None;
    if cached.Some? then cached else Lookup(storage, key)
  }

  /** Every non-null cached value is also what storage holds for its key. */
  predicate Coherent(cache: Option<Table>, storage: Table)
  {
    cache.Some? ==>
      forall key :: key in cache.value && cache.value[key].Some? ==>
        key in storage && storage[key] == cache.value[key]
  }

  /** A put that stores `value` under `key` keeps cache and storage in
      agreement when the new cache holds the key only with that value and
      every other entry as the old cache had it. */
  lemma AdmitKeepsCoherent(cache: Table, storage: Table, admitted: Table, key: string, value: JString)
    requires Coherent(Some(cache), storage)
    requires forall x :: x in admitted && x != key ==> x in cache && admitted[x] == cache[x]
    requires key in admitted ==> admitted[key] == value
    ensures Coherent(Some(admitted), storage[key := value])
  {
  }

  /** When cache and storage agree, the cache is invisible to readers:
      `getKV` answers what storage alone would. */
  lemma CoherentReadIsStorage(cache: Option<Table>, storage: Table, key: string)
    requires Coherent(cache, storage)
    ensures Read(cache, storage, key) == Lookup(storage, key)
  {
  }
}
