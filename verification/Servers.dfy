/** The per-message entry points of the MAC-keyed servers. Both refine the same
    transition system on lease maps. */
module Servers {
  import opened Wrappers
  import opened LeaseMap
  import opened LeaseRuns
  import opened ArrayPools
  import opened HashPools

  class ArrayServer {
    const config: Config
    const pool: ArrayPool

    ghost predicate Valid()
      reads pool, pool.slots
    {
      pool.Valid()
    }

    constructor (config: Config, table: array<Slot>)
      modifies table
      ensures Valid() && this.config == config && pool.slots == table && fresh(pool)
      ensures pool.State() == Pool(map[], config.poolStart)
    {
      this.config := config;
      pool := new ArrayPool(config.poolStart, table);
    }

    /** Handles one message as the server that frees every expired lease. */
    method Process(msg: Message, now: uint32) returns (reply: Reply)
      requires Valid()
      modifies pool, pool.slots
      ensures Valid()
      ensures (pool.State(), reply) == StepAll(config, pool.slots.Length, old(pool.State()), now, msg)
    {
      match msg
      case Discover(mac) => reply := OnDiscover(mac, now);
      case Request(mac, Some(ip)) => reply := OnRequest(mac, ip, now);
      case Decline(mac) =>
        pool.DeclineLease(mac);
        reply := NoReply;
      case _ =>
        reply := NoReply;
    }

    method OnDiscover(mac: Mac, now: uint32) returns (reply: Reply)
      requires Valid()
      modifies pool, pool.slots
      ensures Valid()
      ensures (pool.State(), reply) == StepAll(config, pool.slots.Length, old(pool.State()), now, Discover(mac))
    {
      var ip := pool.FindAvailableIp(config, mac, now);
      reply := if ip == 0 then NoReply else Offer(ip);
    }

    method OnRequest(mac: Mac, ip: uint32, now: uint32) returns (reply: Reply)
      requires Valid()
      modifies pool, pool.slots
      ensures Valid()
      ensures (pool.State(), reply)
           == StepAll(config, pool.slots.Length, old(pool.State()), now, Request(mac, Some(ip)))
    {
      if config.poolStart <= ip <= config.poolEnd {
        ghost var cleaned := Pool(CleanedWhenFull(pool.slots.Length, pool.leases, now), pool.nextIp);
        var ok := pool.AllocLease(ip, mac, config.leaseTime, now);
        reply := if ok then Ack(ip) else Nak;
        RequestReaction(config, pool.slots.Length, cleaned, now, mac, ip);
      } else {
        reply := Nak;
      }
    }
  }

  class HashServer {
    const config: Config
    const pool: HashPool

    ghost predicate Valid()
      reads pool.leases, pool.leases.buckets, pool.leases.occupied, pool.ipSet, pool.ipSet.buckets, pool.ipSet.occupied
    {
      pool.Valid()
    }

    constructor (config: Config, maxLeases: nat, n: nat, macHash: Mac -> nat, ipHash: uint32 -> nat)
      requires n > 0
      ensures Valid() && this.config == config && pool.max == Min(n, maxLeases)
      ensures pool.State() == Pool(map[], config.poolStart)
    {
      this.config := config;
      pool := new HashPool(config.poolStart, maxLeases, n, macHash, ipHash);
    }

    /** Handles one message as a server that frees at most 32 expired leases. */
    method Process(msg: Message, now: uint32) returns (reply: Reply)
      requires Valid()
      modifies pool, pool.leases, pool.leases.buckets, pool.leases.occupied,
               pool.ipSet, pool.ipSet.buckets, pool.ipSet.occupied
      ensures Valid()
      ensures Step(HASHMAP_LIMIT, config, pool.max, old(pool.State()), now, msg, pool.State(), reply)
    {
      ghost var before := pool.State();
      ghost var cleaned := before.leases;
      match msg {
        case Discover(mac) => reply, cleaned := OnDiscover(mac, now);
        case Request(mac, Some(ip)) => reply, cleaned := OnRequest(mac, ip, now);
        case Decline(mac) =>
          pool.DeclineLease(mac);
          reply := NoReply;
        case _ =>
          reply := NoReply;
      }
      StepWith(HASHMAP_LIMIT, config, pool.max, before, now, msg, cleaned, pool.State(), reply);
    }

    method OnDiscover(mac: Mac, now: uint32) returns (reply: Reply, ghost cleaned: Leases)
      requires Valid()
      modifies pool, pool.leases, pool.leases.buckets, pool.leases.occupied,
               pool.ipSet, pool.ipSet.buckets, pool.ipSet.occupied
      ensures Valid()
      ensures Tidied(HASHMAP_LIMIT, pool.max, old(pool.leases.contents), now, cleaned)
      ensures (pool.State(), reply) == React(config, pool.max, Pool(cleaned, old(pool.nextIp)), now, Discover(mac))
    {
      var ip;
      ip, cleaned := pool.FindAvailableIp(config, mac, now);
      reply := if ip == 0 then NoReply else Offer(ip);
    }

    method OnRequest(mac: Mac, ip: uint32, now: uint32) returns (reply: Reply, ghost cleaned: Leases)
      requires Valid()
      modifies pool, pool.leases, pool.leases.buckets, pool.leases.occupied,
               pool.ipSet, pool.ipSet.buckets, pool.ipSet.occupied
      ensures Valid()
      ensures if config.InPool(ip) then Tidied(HASHMAP_LIMIT, pool.max, old(pool.leases.contents), now, cleaned)
              else cleaned == old(pool.leases.contents)
      ensures (pool.State(), reply)
           == React(config, pool.max, Pool(cleaned, old(pool.nextIp)), now, Request(mac, Some(ip)))
    {
      if config.poolStart <= ip <= config.poolEnd {
        var ok;
        ok, cleaned := pool.AllocLease(config, ip, mac, now);
        reply := if ok then Ack(ip) else Nak;
      } else {
        reply, cleaned := Nak, pool.leases.contents;
      }
    }
  }

  lemma StepWith(limit: nat, cfg: Config, max: nat, p: Pool, now: uint32, msg: Message,
                 leases: Leases, p': Pool, reply: Reply)
    requires if LooksForExpired(cfg, msg) then Tidied(limit, max, p.leases, now, leases) else leases == p.leases
    requires React(cfg, max, p.(leases := leases), now, msg) == (p', reply)
    ensures Step(limit, cfg, max, p, now, msg, p', reply)
  {
    assert Prepared(limit, cfg, max, p, now, msg, leases);
  }
}
