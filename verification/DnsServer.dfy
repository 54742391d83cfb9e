/** heavy_utils/dnsserver.c as it runs: the cache array, its counter, and the two scans over it. */
module DnsServer {
  import opened Common
  import opened DnsCache

  class Server {
    const slots: array<Entry>
    var cacheCount: nat

    constructor ()
      ensures Valid() && fresh(slots) && State().count == 0
    {
      slots := new Entry[MAX_CACHE](_ => BLANK);
      cacheCount := 0;
    }

    ghost predicate Valid()
      reads this, slots
    {
      slots.Length == MAX_CACHE && Sized(Cache(slots[..], cacheCount))
    }

    ghost function State(): (c: Cache)
      requires Valid()
      reads this, slots
      ensures Sized(c)
    {
      Cache(slots[..], cacheCount)
    }

    /** find_in_cache: the index of the hit. */
    method FindInCache(domain: string, qtype: nat, now: int) returns (hit: Option<nat>)
      requires Valid()
      modifies slots
      ensures Valid() && (State(), hit) == Find(old(State()), domain, qtype, now)
    {
      hide Matches;
      ghost var start := slots[..];
      FindSized(State(), domain, qtype, now);
      var i := 0;
      hit := None;
      while i < cacheCount
        invariant i <= cacheCount <= MAX_CACHE && slots.Length == MAX_CACHE
        invariant Scan(slots[..], cacheCount, i, domain, qtype, now) == Scan(start, cacheCount, 0, domain, qtype, now)
      {
        if Matches(slots[i], domain, qtype) {
          if slots[i].expire >= now {
            hit := Some(i);
            return;
          }
          ghost var was := slots[..];
          slots[i] := slots[i].(used := false);
          assert slots[..] == was[i := was[i].(used := false)];
        }
        i := i + 1;
      }
    }

    /** save_to_cache. */
    method SaveToCache(domain: string, qtype: nat, packet: seq<byte>, ttl: nat, now: int, dice: nat)
      requires Valid() && dice < MAX_CACHE
      modifies this`cacheCount, slots
      ensures Valid() && State() == Save(old(State()), domain, qtype, packet, ttl, now, dice)
    {
      if |packet| > PACKET_MAX { return; }
      var k := FindReusable(now);
      if k == cacheCount {
        if cacheCount < MAX_CACHE { cacheCount := cacheCount + 1; } else { k := dice; }
      }
      assert k == SaveSlot(old(State()), now, dice);
      hide SaveSlot, Reusable, Cut;
      var kept := slots[k].packet;
      var e := Entry(Cut(domain), qtype, packet + kept[|packet|..], |packet|,
                     now + (if ttl > 0 then ttl else 60), true);
      slots[k] := e;
      assert slots[..] == old(slots[..])[k := e];
    }

    /** The first loop of a save. */
    method FindReusable(now: int) returns (k: nat)
      requires Valid()
      ensures k == Reusable(slots[..], cacheCount, now, 0)
    {
      k := 0;
      while k < cacheCount
        invariant k <= cacheCount && Reusable(slots[..], cacheCount, now, k) == Reusable(slots[..], cacheCount, now, 0)
      {
        if !slots[k].used || slots[k].expire < now { return; }
        k := k + 1;
      }
    }

    /** The C key: only the counter is reset. */
    method ClearCache()
      requires Valid()
      modifies this`cacheCount
      ensures Valid() && State() == Clear(old(State()))
    {
      cacheCount := 0;
    }

    /** Steps 4 and 5 of the request loop. */
    method Answer(domain: string, qtype: nat, id: (byte, byte), now: int, reply: Option<seq<byte>>, later: int,
        dice: nat)
      returns (a: Answer)
      requires Valid() && dice < MAX_CACHE && (reply.Some? ==> 0 < |reply.value| <= PACKET_MAX)
      modifies this`cacheCount, slots
      ensures Valid() && (State(), a) == Query(old(State()), domain, qtype, id, now, reply, later, dice)
    {
      hide Find, Save;
      FindSized(State(), domain, qtype, now);
      var hit := FindInCache(domain, qtype, now);
      if hit.Some? {
        ghost var was := slots[..];
        var e := slots[hit.value].(packet := WithId(slots[hit.value].packet, id));
        slots[hit.value] := e;
        assert slots[..] == was[hit.value := e];
        a := FromCache(Sent(e));
      } else if reply.Some? {
        SaveToCache(domain, qtype, reply.value, TTL, later, dice);
        a := FromUpstream(reply.value);
      } else {
        a := NoAnswer;
      }
    }
  }
}
