/**
 * The idempotency store: the Redis keyspace the gate shares between
 * requests. A key holds a claim state and an expiry; an expired key reads as
 * absent (Redis expires keys lazily, so it may still sit in the map). Only
 * the three commands the gate issues are modelled: `SET key v EX ttl NX`,
 * `SET key v KEEPTTL` and `DEL key`. Each is one atomic step.
 *
 * Times are the store's clock in milliseconds, as Redis keeps them: `EX ttl`
 * sets the expiry `ttl * 1000` ms ahead, and a key has expired only once the
 * clock is strictly past its expiry.
 */
module Store {
  import opened Wrappers

  /** The two values the gate ever stores under a transaction hash. */
  datatype ClaimState = Processing | Used

  /** A key's expiry: an absolute time in milliseconds, or none (a persistent key). */
  datatype Expiry = At(time: int) | Never

  datatype Entry = Entry(state: ClaimState, expiry: Expiry)

  type Entries = map<string, Entry>

  /** The entry has not expired at time `now`: Redis expires a key once the clock passes its expiry. */
  predicate LiveAt(e: Entry, now: int)
  {
    e.expiry.Never? || now <= e.expiry.time
  }

  /** `key` exists, unexpired, at time `now`. */
  predicate Holds(m: Entries, key: string, now: int)
  {
    key in m && LiveAt(m[key], now)
  }

  /** What `GET key` observes at time `now`. */
  function Get(m: Entries, key: string, now: int): (r: Option<ClaimState>)
    ensures r.Some? <==> Holds(m, key, now)
    ensures r.Some? ==> r.value == m[key].state
  {
    if Holds(m, key, now) then Some(m[key].state) else None
  }

  datatype SetNxResult = SetNxResult(ok: bool, entries: Entries)

  /**
   * `SET key state EX ttl NX` at time `now`: stores the key with an expiry
   * `ttl` seconds ahead only if it does not currently exist (an expired key
   * counts as absent); `ok` says whether this call stored it.
   */
  function SetNxEx(m: Entries, key: string, state: ClaimState, ttl: nat, now: int): (r: SetNxResult)
    ensures r.ok <==> Get(m, key, now).None?
    ensures !r.ok ==> r.entries == m
    ensures r.ok ==> r.entries.Keys == m.Keys + {key} && Get(r.entries, key, now) == Some(state)
  {
    if Holds(m, key, now) then SetNxResult(false, m)
    else SetNxResult(true, m[key := Entry(state, At(now + ttl * 1000))])
  }

  /**
   * `SET key state KEEPTTL` at time `now`: stores unconditionally, keeping the
   * key's remaining time to live; a key that no longer exists is created
   * without any expiry.
   */
  function SetKeepTtl(m: Entries, key: string, state: ClaimState, now: int): (r: Entries)
    ensures r.Keys == m.Keys + {key} && Get(r, key, now) == Some(state)
  {
    m[key := Entry(state, if Holds(m, key, now) then m[key].expiry else Never)]
  }

  /** `DEL key`. */
  function Del(m: Entries, key: string): (r: Entries)
    ensures r.Keys == m.Keys - {key}
    ensures forall k :: k in r ==> r[k] == m[k]
  {
    m - {key}
  }

  /** Two keys read the same in two stores at time `now`. */
  ghost predicate SameElsewhere(m: Entries, m': Entries, key: string, now: int)
  {
    forall k :: k != key ==> Get(m', k, now) == Get(m, k, now)
  }

  /**
   * The conditional insert succeeds exactly when the key is free, and then
   * the key reads as the stored state up to and including the moment `ttl`
   * seconds later, and not after; no other key changes.
   */
  lemma SetNxExClaims(m: Entries, key: string, state: ClaimState, ttl: nat, now: int)
    ensures SetNxEx(m, key, state, ttl, now).ok <==> Get(m, key, now).None?
    ensures !SetNxEx(m, key, state, ttl, now).ok ==> SetNxEx(m, key, state, ttl, now).entries == m
    ensures SetNxEx(m, key, state, ttl, now).ok ==>
      forall t :: Get(SetNxEx(m, key, state, ttl, now).entries, key, t) == (if t <= now + ttl * 1000 then Some(state) else None)
    ensures forall t :: SameElsewhere(m, SetNxEx(m, key, state, ttl, now).entries, key, t)
  {
  }

  /**
   * Mutual exclusion: after one conditional insert succeeds, every other
   * conditional insert on the same key fails until the first one's TTL has
   * run out, and one after that point succeeds.
   */
  lemma SetNxExExclusive(m: Entries, key: string, ttl: nat, now: int, s1: ClaimState, s2: ClaimState, later: int)
    requires SetNxEx(m, key, s1, ttl, now).ok
    ensures SetNxEx(SetNxEx(m, key, s1, ttl, now).entries, key, s2, ttl, later).ok <==> later > now + ttl * 1000
  {
  }

  /**
   * `KEEPTTL` changes the state and nothing else of a live key; on a key
   * that has already expired it leaves a key that never expires.
   */
  lemma SetKeepTtlKeepsExpiry(m: Entries, key: string, state: ClaimState, now: int)
    ensures key in SetKeepTtl(m, key, state, now) && SetKeepTtl(m, key, state, now)[key].state == state
    ensures Holds(m, key, now) ==> SetKeepTtl(m, key, state, now)[key].expiry == m[key].expiry
    ensures !Holds(m, key, now) ==> forall t :: Get(SetKeepTtl(m, key, state, now), key, t) == Some(state)
    ensures forall t :: SameElsewhere(m, SetKeepTtl(m, key, state, now), key, t)
  {
  }

  /** After `DEL` the key is free at every time, and nothing else changes. */
  lemma DelFrees(m: Entries, key: string)
    ensures forall t :: Get(Del(m, key), key, t).None?
    ensures forall t :: SameElsewhere(m, Del(m, key), key, t)
  {
  }

  /** The shared store the gate's requests act on. */
  class ClaimStore {
    var entries: Entries

    constructor ()
      ensures entries == map[]
    {
      entries := map[];
    }

    method SetNx(key: string, state: ClaimState, ttl: nat, now: int) returns (ok: bool)
      modifies this
      ensures SetNxResult(ok, entries) == SetNxEx(old(entries), key, state, ttl, now)
    {
      ok := !Holds(entries, key, now);
      if ok {
        entries := entries[key := Entry(state, At(now + ttl * 1000))];
      }
    }

    method SetKeepingTtl(key: string, state: ClaimState, now: int)
      modifies this
      ensures entries == SetKeepTtl(old(entries), key, state, now)
    {
      var expiry := if Holds(entries, key, now) then entries[key].expiry else Never;
      entries := entries[key := Entry(state, expiry)];
    }

    method Delete(key: string)
      modifies this
      ensures entries == Del(old(entries), key)
    {
      entries := entries - {key};
    }
  }
}
