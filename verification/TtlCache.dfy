/** The generic TTL cache (pkg/cache). The clock is read by the caller and passed
    in; a cache whose ttl is not positive stores nothing. */
module TtlCache {
  import opened Text

  datatype Entry<+V> = Entry(value: V, expires: int)

  type Entries<V> = map<string, Entry<V>>

  /** What `Get` answers at time `now`. */
  function Lookup<V>(ttl: int, m: Entries<V>, key: string, now: int): Option<V> {
    if ttl > 0 && key in m && now <= m[key].expires then Some(m[key].value) else None
  }

  function Stored<V>(ttl: int, m: Entries<V>, key: string, value: V, now: int): Entries<V> {
    if ttl > 0 then m[key := Entry(value, now + ttl)] else m
  }

  function Swept<V>(m: Entries<V>, now: int): Entries<V> {
    map k | k in m && now <= m[k].expires :: m[k]
  }

  class TTLCache<V> {
    const ttl: int
    var m: Entries<V>

    constructor (ttl: int)
      ensures this.ttl == ttl && m == map[]
    {
      this.ttl := ttl;
      m := map[];
    }

    method Get(key: string, now: int) returns (r: Option<V>)
      ensures r == Lookup(ttl, m, key, now)
      ensures r.Some? <==> ttl > 0 && key in m && now <= m[key].expires
      ensures r.Some? ==> r.value == m[key].value
    {
      if ttl <= 0 || key !in m || now > m[key].expires {
        return None;
      }
      return Some(m[key].value);
    }

    method Set(key: string, value: V, now: int)
      modifies this`m
      ensures m == Stored(ttl, old(m), key, value, now)
      ensures forall k, later :: Lookup(ttl, m, k, later)
                == if k == key && ttl > 0 then (if later <= now + ttl then Some(value) else None)
                   else Lookup(ttl, old(m), k, later)
    {
      if ttl <= 0 {
        return;
      }
      m := m[key := Entry(value, now + ttl)];
    }

    /** The janitor's pass: drops every entry whose deadline has passed. */
    method EvictExpired(now: int)
      modifies this`m
      ensures m == Swept(old(m), now)
      ensures forall k :: k in m <==> k in old(m) && now <= old(m)[k].expires
      ensures forall k :: k in m ==> m[k] == old(m)[k]
    {
      var left := m.Keys;
      while left != {}
        invariant left <= old(m).Keys
        invariant forall k :: k in m <==> k in old(m) && (k in left || now <= old(m)[k].expires)
        invariant forall k :: k in m ==> m[k] == old(m)[k]
        decreases left
      {
        var k :| k in left;
        if now > m[k].expires {
          m := m - {k};
        }
        left := left - {k};
      }
    }

    /** From then on `key` is a miss at any time, and every other key answers as before. */
    method Delete(key: string)
      modifies this`m
      ensures m == old(m) - {key}
      ensures forall k, now :: Lookup(ttl, m, k, now) == if k == key then None else Lookup(ttl, old(m), k, now)
    {
      m := m - {key};
    }

    method Purge()
      modifies this`m
      ensures m == map[]
    {
      m := map[];
    }
  }

  /** A janitor pass changes no answer from then on. */
  lemma SweepInvisible<V>(ttl: int, m: Entries<V>, swept: int, key: string, now: int)
    requires swept <= now
    ensures Lookup(ttl, Swept(m, swept), key, now) == Lookup(ttl, m, key, now)
  {
  }
}
