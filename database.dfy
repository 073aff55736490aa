/** The in-memory parts of app/database.py: the `QueryCache` with its time
  * to live and oldest-first eviction, the `cached_query` wrapper, and the
  * page arithmetic of `get_images_paginated`. The clock is a parameter. */
module Database {
  import opened Text

  /** A cached value and the time it was stored. */
  datatype Entry<V> = Entry(value: V, timestamp: real)

  /** The keys in order with key added at the end unless it is there already
    * (a dictionary keeps the place of a key it overwrites). */
  function Appended(order: seq<string>, key: string): (r: seq<string>)
    ensures forall k :: k in r <==> k in order || k == key
    ensures NoDuplicates(order) ==> NoDuplicates(r)
  {
    if key in order then order else order + [key]
  }

  /** The keys in order with key taken out. */
  function Without(order: seq<string>, key: string): (r: seq<string>)
    ensures forall k :: k in r <==> k in order && k != key
    ensures NoDuplicates(order) ==> NoDuplicates(r)
    ensures |r| <= |order|
    ensures key in order && NoDuplicates(order) ==> |r| == |order| - 1
    ensures key !in order ==> r == order
  {
    if |order| == 0 then []
    else
      var rest := Without(order[1..], key);
      assert forall k :: k in order[1..] ==> k in order;
      assert NoDuplicates(order) ==> order[0] !in order[1..];
      if order[0] == key then rest else [order[0]] + rest
  }

  /** The position of Python's `min(keys, key=timestamp)`: the first key,
    * in insertion order, with the smallest timestamp. */
  function OldestIndex<V>(order: seq<string>, cache: map<string, Entry<V>>): (k: nat)
    requires |order| > 0 && forall i :: 0 <= i < |order| ==> order[i] in cache
    ensures k < |order|
    ensures forall i :: 0 <= i < |order| ==> cache[order[k]].timestamp <= cache[order[i]].timestamp
    ensures forall i :: 0 <= i < k ==> cache[order[i]].timestamp > cache[order[k]].timestamp
  {
    if |order| == 1 then 0
    else
      var k := OldestIndex(order[..|order| - 1], cache);
      if cache[order[|order| - 1]].timestamp < cache[order[k]].timestamp then |order| - 1 else k
  }

  /** The stored entries and the insertion order of their keys. */
  datatype Contents<V> = Contents(cache: map<string, Entry<V>>, order: seq<string>)

  /** What `get` leaves behind at time now: an expired entry is deleted,
    * anything else stays. */
  function AfterGet<V>(c: Contents<V>, key: string, now: real, ttl: real): (r: Contents<V>)
    requires forall k :: k in c.order ==> k in c.cache
    ensures forall k :: k in r.order ==> k in r.cache
    ensures forall k :: k in r.cache <==> k in c.cache && (k == key ==> now - c.cache[key].timestamp < ttl)
  {
    if key in c.cache && now - c.cache[key].timestamp >= ttl then Contents(c.cache - {key}, Without(c.order, key))
    else c
  }

  /** What `set` leaves behind: when full, the oldest entry goes first; then
    * the new entry is stored. With no room and nothing to evict, `min`
    * raises and nothing changes. */
  function AfterSet<V>(c: Contents<V>, maxSize: int, key: string, e: Entry<V>): (r: Contents<V>)
    requires forall k :: k in c.order ==> k in c.cache
    ensures |c.order| > 0 || maxSize > 0 ==> key in r.cache && r.cache[key] == e && key in r.order
    ensures |c.order| == 0 && maxSize <= 0 ==> r == c
  {
    if |c.order| >= maxSize then
      if |c.order| == 0 then c
      else
        var v := c.order[OldestIndex(c.order, c.cache)];
        Contents((c.cache - {v})[key := e], Appended(Without(c.order, v), key))
    else Contents(c.cache[key := e], Appended(c.order, key))
  }

  /** The keys of the entries, once each and at most cap of them. */
  ghost predicate ValidContents<V>(c: Contents<V>, cap: int) {
    (forall k :: k in c.cache <==> k in c.order) && NoDuplicates(c.order) && |c.order| <= cap
  }

  /** `set` keeps the keys listed once each and never exceeds the room it has. */
  lemma AfterSetValid<V>(c: Contents<V>, maxSize: int, key: string, e: Entry<V>)
    requires ValidContents(c, if maxSize < 0 then 0 else maxSize)
    ensures ValidContents(AfterSet(c, maxSize, key, e), if maxSize < 0 then 0 else maxSize)
  {
    if |c.order| >= maxSize && |c.order| > 0 {
      var v := c.order[OldestIndex(c.order, c.cache)];
      var w := Without(c.order, v);
      assert |w| == |c.order| - 1;
    }
  }

  /** `QueryCache`: values by key with the time they were stored; `order`
    * is the insertion order of the dictionary's keys. */
  class QueryCache<V> {
    const maxSize: int
    const ttl: real
    var cache: map<string, Entry<V>>
    var order: seq<string>

    /** The most entries the cache can hold. */
    function Cap(): nat { if maxSize < 0 then 0 else maxSize }

    /** `order` lists the keys of `cache` once each, and there are at most maxSize of them. */
    ghost predicate Valid()
      reads this
    {
      (forall k :: k in cache <==> k in order) && NoDuplicates(order) && |order| <= Cap()
    }

    constructor(maxSize: int, ttl: real)
      ensures this.maxSize == maxSize && this.ttl == ttl
      ensures cache == map[] && order == [] && Valid()
    {
      this.maxSize := maxSize;
      this.ttl := ttl;
      cache := map[];
      order := [];
    }

    /** The entry is stored and younger than ttl at time now. */
    predicate Fresh(key: string, now: real)
      reads this
    {
      key in cache && now - cache[key].timestamp < ttl
    }

    /** `get` at time now: a fresh value is returned; an expired entry is
      * deleted; otherwise (also for an absent key) Python's None. */
    method Get(key: string, now: real) returns (r: Option<V>)
      requires Valid()
      modifies this
      ensures Valid()
      ensures r.Some? <==> old(Fresh(key, now))
      ensures r.Some? ==> r.value == old(cache)[key].value
      ensures key in old(cache) && r.None? ==> cache == old(cache) - {key} && order == Without(old(order), key)
      ensures key !in old(cache) || r.Some? ==> cache == old(cache) && order == old(order)
      ensures Contents(cache, order) == AfterGet(Contents(old(cache), old(order)), key, now, ttl)
    {
      if key in cache {
        var item := cache[key];
        if now - item.timestamp < ttl {
          return Some(item.value);
        }
        cache := cache - {key};
        order := Without(order, key);
      }
      return None;
    }

    /** The key `set` evicts when the cache is full. */
    function Victim(): string
      requires Valid() && |order| > 0
      reads this
    {
      order[OldestIndex(order, cache)]
    }

    /** `set` at time now. When the cache is full, the entry with the
      * smallest timestamp goes first (even when key itself is stored);
      * then value is stored with time now. With no room at all and nothing
      * to evict, Python's `min` raises ValueError and nothing changes. */
    method Set(key: string, value: V, now: real) returns (raised: bool)
      requires Valid()
      modifies this
      ensures Valid()
      ensures raised <==> |old(order)| == 0 && maxSize <= 0
      ensures raised ==> cache == old(cache) && order == old(order)
      ensures !raised && |old(order)| >= maxSize ==>
        cache == (old(cache) - {old(Victim())})[key := Entry(value, now)]
      ensures !raised && |old(order)| < maxSize ==> cache == old(cache)[key := Entry(value, now)]
      ensures !raised && |old(order)| >= maxSize ==> order == Appended(Without(old(order), old(Victim())), key)
      ensures !raised && |old(order)| < maxSize ==> order == Appended(old(order), key)
      ensures !raised ==> key in cache && cache[key] == Entry(value, now) && |order| <= maxSize
      ensures Contents(cache, order) == AfterSet(Contents(old(cache), old(order)), maxSize, key, Entry(value, now))
    {
      ghost var before := Contents(cache, order);
      if |order| >= maxSize {
        if |order| == 0 {
          return true;
        }
        var oldest := order[OldestIndex(order, cache)];
        cache := cache - {oldest};
        order := Without(order, oldest);
      }
      order := Appended(order, key);
      cache := cache[key := Entry(value, now)];
      assert Contents(cache, order) == AfterSet(before, maxSize, key, Entry(value, now));
      AfterSetValid(before, maxSize, key, Entry(value, now));
      return false;
    }

    /** `clear`. */
    method Clear()
      modifies this
      ensures cache == map[] && order == [] && Valid()
    {
      cache := map[];
      order := [];
    }
  }

  /** A cache with room for 2 holding key1 (stored at 0.0) and key2 (at 0.1). */
  method TwoStored() returns (c: QueryCache<string>)
    ensures fresh(c) && c.Valid() && c.maxSize == 2 && c.ttl == 1.0
    ensures c.order == ["key1", "key2"]
    ensures c.cache == map["key1" := Entry("value1", 0.0), "key2" := Entry("value2", 0.1)]
  {
    c := new QueryCache<string>(2, 1.0);
    var e := c.Set("key1", "value1", 0.0);
    assert c.order == ["key1"];
    e := c.Set("key2", "value2", 0.1);
  }

  /** key1 and key2 read back at 0.2, and the absent key3 as None; nothing changes. */
  method ReadBack(c: QueryCache<string>) returns (g1: Option<string>, g2: Option<string>, g3: Option<string>)
    requires c.Valid() && c.maxSize == 2 && c.ttl == 1.0
    requires c.order == ["key1", "key2"]
    requires c.cache == map["key1" := Entry("value1", 0.0), "key2" := Entry("value2", 0.1)]
    modifies c
    ensures g1 == Some("value1") && g2 == Some("value2") && g3.None?
    ensures c.Valid() && c.order == old(c.order) && c.cache == old(c.cache)
  {
    g1 := c.Get("key1", 0.2);
    g2 := c.Get("key2", 0.2);
    g3 := c.Get("key3", 0.2);
  }

  /** Storing key3 at 0.3 into the full cache evicts key1, whose timestamp is the smallest. */
  method StoreThird(c: QueryCache<string>)
    requires c.Valid() && c.maxSize == 2 && c.ttl == 1.0
    requires c.order == ["key1", "key2"]
    requires c.cache == map["key1" := Entry("value1", 0.0), "key2" := Entry("value2", 0.1)]
    modifies c
    ensures c.Valid() && c.cache == map["key2" := Entry("value2", 0.1), "key3" := Entry("value3", 0.3)]
  {
    assert OldestIndex(c.order[..1], c.cache) == 0;
    assert c.Victim() == "key1";
    var e := c.Set("key3", "value3", 0.3);
  }

  /** With room for 2, after key1 and key2 are stored and read back, storing
    * key3 evicts key1, the oldest, and keeps key2 and key3; an absent key reads as None. */
  method EvictsOldest() returns (g1: Option<string>, g2: Option<string>, g3: Option<string>,
                                 h1: Option<string>, h2: Option<string>, h3: Option<string>)
    ensures g1 == Some("value1") && g2 == Some("value2") && g3.None?
    ensures h1.None? && h2 == Some("value2") && h3 == Some("value3")
  {
    var c := TwoStored();
    g1, g2, g3 := ReadBack(c);
    StoreThird(c);
    h1 := c.Get("key1", 0.4);
    h2 := c.Get("key2", 0.4);
    h3 := c.Get("key3", 0.4);
  }

  /** An entry read within its time to live is returned, and read after it expires is gone. */
  method Expires() returns (before: Option<string>, after: Option<string>)
    ensures before == Some("value1") && after.None?
  {
    var c := new QueryCache<string>(10, 0.1);
    var e := c.Set("key1", "value1", 0.0);
    before := c.Get("key1", 0.05);
    after := c.Get("key1", 0.2);
  }

  /** The function wrapped by `cached_query`: its value, or Python's None. */
  type Result<T> = Option<T>

  /** `cached_query`'s wrapper: a stored value other than None that is still
    * fresh at time now is returned; otherwise `computed` (what the wrapped
    * function returns) is stored at time later and returned. A None result
    * is therefore computed again on every call. A cache with no room makes
    * `set` raise, and the call fails (raised) instead of returning. */
  method CachedQuery<T>(qc: QueryCache<Result<T>>, key: string, now: real, computed: Result<T>, later: real)
    returns (result: Result<T>, hit: bool, raised: bool)
    requires qc.Valid()
    modifies qc
    ensures qc.Valid()
    ensures hit <==> old(qc.Fresh(key, now)) && old(qc.cache)[key].value.Some?
    ensures hit ==> result == old(qc.cache)[key].value && qc.cache == old(qc.cache) && qc.order == old(qc.order)
    ensures raised <==> qc.maxSize <= 0
    ensures raised ==> !hit && qc.cache == old(qc.cache) && qc.order == old(qc.order)
    ensures !hit && !raised ==> result == computed
    ensures !hit && !raised ==> key in qc.cache && qc.cache[key] == Entry(computed, later)
    ensures !hit ==>
      (Contents(qc.cache, qc.order)
       == AfterSet(AfterGet(Contents(old(qc.cache), old(qc.order)), key, now, qc.ttl), qc.maxSize, key, Entry(computed, later)))
  {
    var cached := qc.Get(key, now);
    if cached.Some? && cached.value.Some? {
      return cached.value, true, false;
    }
    result, hit := computed, false;
    raised := qc.Set(key, computed, later);
  }

  // ------------------------------------------------------------ pagination

  /** Python's `a // b` (floor division); None for ZeroDivisionError. */
  function FloorDiv(a: int, b: int): (q: Option<int>)
    ensures q.Some? <==> b != 0
    ensures b > 0 ==> q.value * b <= a < q.value * b + b
    ensures b < 0 ==> q.value * b >= a > q.value * b + b
  {
    if b == 0 then None
    else if b > 0 then Some(a / b)
    else Some((-a) / (-b))
  }

  /** The numbers `get_images_paginated` returns besides the items. */
  datatype Page = Page(offset: int, total: int, page: int, perPage: int, pages: int)

  /** `get_images_paginated` for a query with total matches; None stands for
    * the ZeroDivisionError of per_page 0. */
  function Paginate(total: int, page: int, perPage: int): (r: Option<Page>)
    ensures r.Some? <==> perPage != 0
    ensures r.Some? ==> r.value.offset == (page - 1) * perPage && r.value.total == total
                        && r.value.page == page && r.value.perPage == perPage
  {
    match FloorDiv(total + perPage - 1, perPage)
    case None => None
    case Some(pages) => Some(Page((page - 1) * perPage, total, page, perPage, pages))
  }

  /** With a positive page size and no negative total, `pages` is the
    * ceiling of total / per_page: the pages hold every match, and the last
    * page is not empty. */
  lemma PagesCeiling(total: nat, perPage: nat)
    requires perPage > 0
    ensures var p := Paginate(total, 1, perPage).value.pages;
      p >= 0 && (total == 0 <==> p == 0) && (total > 0 ==> (p - 1) * perPage < total <= p * perPage)
  {
    var p := Paginate(total, 1, perPage).value.pages;
    assert p * perPage <= total + perPage - 1 < p * perPage + perPage;
    assert (p - 1) * perPage == p * perPage - perPage;
    if p < 0 { MulMonotone(p, -1, perPage); }
    if p >= 1 { MulMonotone(1, p, perPage); }
  }

  /** Every match i lies on exactly one page: page i // per_page + 1, a page
    * between 1 and `pages`, whose offset is at most i and within per_page of it. */
  lemma EveryMatchOnOnePage(total: nat, perPage: nat, i: nat)
    requires perPage > 0 && i < total
    ensures var page := i / perPage + 1;
      var r := Paginate(total, page, perPage).value;
      1 <= page <= r.pages && r.offset <= i < r.offset + perPage
    ensures forall page :: (Paginate(total, page, perPage).value.offset <= i < Paginate(total, page, perPage).value.offset + perPage
      ==> page == i / perPage + 1)
  {
    var q := i / perPage;
    var p := Paginate(total, 1, perPage).value.pages;
    PagesCeiling(total, perPage);
    assert q * perPage <= i < q * perPage + perPage;
    assert (q + 1 - 1) * perPage == q * perPage;
    assert (q + 1) * perPage == q * perPage + perPage;
    if q + 1 > p { MulMonotone(p, q, perPage); }
    forall page | Paginate(total, page, perPage).value.offset <= i < Paginate(total, page, perPage).value.offset + perPage
      ensures page == q + 1
    {
      assert (page - 1) * perPage + perPage == page * perPage;
      if page - 1 < q { MulMonotone(page, q, perPage); }
      if page - 1 > q { MulMonotone(q + 1, page - 1, perPage); }
    }
  }

  lemma MulMonotone(a: int, b: int, c: nat)
    requires a <= b
    ensures a * c <= b * c
  {
    assert b * c - a * c == (b - a) * c;
  }
}
