/** The Redis cache as the pipeline uses it: `get` and `setex`, with keys that
    expire a number of seconds after they are set. The clock is passed in. */
module Cache {
  import opened Records

  datatype Entry = Entry(value: Payload, expiresAt: int)

  /** What `get` answers at time `now`: the value, unless the key is unset or
      has expired. */
  function Lookup(entries: map<string, Entry>, key: string, now: int): (r: Option<Payload>)
    ensures r.Some? <==> key in entries && now < entries[key].expiresAt
    ensures r.Some? ==> r.value == entries[key].value
  {
    if key in entries && now < entries[key].expiresAt then Some(entries[key].value) else None
  }

  /** The entries after `setex(key, ttl, value)` at time `now`. */
  function Stored(entries: map<string, Entry>, key: string, ttl: int, value: Payload, now: int): (m: map<string, Entry>)
    ensures m.Keys == entries.Keys + {key}
    ensures m[key] == Entry(value, now + ttl)
    ensures forall k :: k in entries && k != key ==> m[k] == entries[k]
  {
    entries[key := Entry(value, now + ttl)]
  }

  /** A value just set is read back until its time to live has elapsed and
      is absent from then on; every other key reads as before. */
  lemma SetThenGet(entries: map<string, Entry>, key: string, ttl: int, value: Payload, now: int, later: int, other: string)
    requires now <= later
    requires other != key
    ensures Lookup(Stored(entries, key, ttl, value, now), key, later)
            == if later < now + ttl then Some(value) else None
    ensures Lookup(Stored(entries, key, ttl, value, now), other, later) == Lookup(entries, other, later)
  {
  }

  class Redis {
    var entries: map<string, Entry>

    constructor ()
      ensures entries == map[]
    {
      entries := map[];
    }

    /** `get`: absence is a normal answer, never an error. */
    method Get(key: string, now: int) returns (v: Option<Payload>)
      ensures v == Lookup(entries, key, now)
    {
      if key in entries && now < entries[key].expiresAt {
        v := Some(entries[key].value);
      } else {
        v := None;
      }
    }

    /** `setex`: store `value` under `key` for `ttl` seconds. */
    method SetEx(key: string, ttl: int, value: Payload, now: int)
      modifies this
      ensures entries == Stored(old(entries), key, ttl, value, now)
    {
      entries := entries[key := Entry(value, now + ttl)];
    }
  }
}
