/**
 * The Redis side of the service: cached initiating requests with an expiry,
 * the per-user sets of allowed phone numbers, and the log of messages
 * published on channels.
 */
module Cache {
  import opened Common
  import opened Api

  /** A cached value: the initiating request, or bytes that do not unmarshal
      into one. */
  datatype Cached = CachedRequest(req: InitiateRequest) | Undecodable

  datatype Entry = Entry(value: Cached, expiresAt: int)

  datatype Publication = Publication(channel: string, message: PublishMessage)

  class Redis {
    var entries: map<string, Entry>
    var sets: map<string, seq<string>>
    var published: seq<Publication>

    constructor ()
      ensures entries == map[] && sets == map[] && published == []
    {
      entries := map[];
      sets := map[];
      published := [];
    }

    /** `GET key` at time `now`: the value, unless it is absent or expired. */
    function Get(key: string, now: int): (r: Option<Cached>)
      reads this
      ensures r.Some? <==> key in entries && now < entries[key].expiresAt
      ensures r.Some? ==> r.value == entries[key].value
    {
      if key in entries && now < entries[key].expiresAt then Some(entries[key].value) else None
    }

    /** `SMEMBERS key`: the empty set for a missing key. */
    function Members(key: string): (r: seq<string>)
      reads this
      ensures key in sets ==> r == sets[key]
      ensures key !in sets ==> r == []
    {
      if key in sets then sets[key] else []
    }

    /** `SET key value EX ttl` at time `now`: readable until `now + ttl`. */
    method Set(key: string, value: Cached, ttl: int, now: int)
      modifies this
      ensures entries == old(entries)[key := Entry(value, now + ttl)]
      ensures sets == old(sets) && published == old(published)
      ensures forall t :: now <= t < now + ttl ==> Get(key, t) == Some(value)
      ensures forall t :: now + ttl <= t ==> Get(key, t).None?
    {
      entries := entries[key := Entry(value, now + ttl)];
    }

    /** `PUBLISH channel message`. */
    method Publish(channel: string, message: PublishMessage)
      modifies this
      ensures published == old(published) + [Publication(channel, message)]
      ensures entries == old(entries) && sets == old(sets)
    {
      published := published + [Publication(channel, message)];
    }
  }
}
