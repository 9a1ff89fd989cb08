/** The HASHMAP lease pool: a hash table of leases keyed by MAC and a hash table of
    the addresses in use, kept in step. */
module HashPools {
  import opened Wrappers
  import opened LeaseMap
  import opened LeaseRuns
  import opened Probing
  import opened HashTables

  function MacOf(l: Lease): Mac {
    l.mac
  }

  function Itself(ip: uint32): uint32 {
    ip
  }

  // ----- The two tables in step --------------------------------------------

  ghost predicate Keyed(m: Leases) {
    forall k | k in m :: m[k].mac == k
  }

  /** The address table holds exactly the addresses of the leases, each once. */
  ghost predicate InStep(m: Leases, ips: map<uint32, uint32>) {
    && Keyed(m) && UniqueIps(m)
    && ips.Keys == IpsOf(m)
    && |ips| == |m|
  }

  /** The same, for use by the pool methods: see `Opened`. */
  ghost predicate Coupled(m: Leases, ips: map<uint32, uint32>) {
    forall u {:trigger Opened(null, u)} | Opened(null, u) :: InStep(m, ips)
  }

  lemma CoupledFacts(m: Leases, ips: map<uint32, uint32>)
    requires Coupled(m, ips)
    ensures InStep(m, ips) && ips.Keys == IpsOf(m) && |ips| == |m|
  {
    assert Opened(null, 0);
  }

  lemma DropKeepsInStep(m: Leases, ips: map<uint32, uint32>, k: Mac)
    requires Coupled(m, ips) && k in m
    ensures Coupled(m - {k}, ips - {m[k].ip})
    ensures |ips - {m[k].ip}| == |m - {k}| == |m| - 1
  {
    CoupledFacts(m, ips);
    MinusSize(m, {k});
    assert m[k].ip in IpsOf(m);
    MinusSize(ips, {m[k].ip});
    DropIps(m, k);
  }

  /** Because addresses are unique, dropping a client drops exactly its address. */
  lemma DropIps(m: Leases, k: Mac)
    requires UniqueIps(m) && k in m
    ensures IpsOf(m - {k}) == IpsOf(m) - {m[k].ip}
  {
    var m' := m - {k};
    forall ip | ip in IpsOf(m) - {m[k].ip} ensures ip in IpsOf(m') {
      var j :| j in m && m[j].ip == ip;
      assert j in m' && m'[j].ip == ip;
    }
    forall ip | ip in IpsOf(m') ensures ip in IpsOf(m) - {m[k].ip} {
      var j :| j in m' && m'[j].ip == ip;
      assert m[j].ip == ip;
    }
  }

  lemma AddKeepsInStep(m: Leases, ips: map<uint32, uint32>, l: Lease)
    requires Coupled(m, ips) && l.mac !in m && l.ip !in ips
    ensures Coupled(m[l.mac := l], ips[l.ip := l.ip])
    ensures |ips[l.ip := l.ip]| == |m[l.mac := l]| == |m| + 1
  {
    CoupledFacts(m, ips);
    UpdateSize(m, l.mac, l);
    UpdateSize(ips, l.ip, l.ip);
    var m', ips' := m[l.mac := l], ips[l.ip := l.ip];
    forall k | k in m ensures m[k].ip in ips {
      assert m[k].ip in IpsOf(m);
    }
    forall ip ensures ip in IpsOf(m') <==> ip in ips' {
      if ip in IpsOf(m) {
        var k :| k in m && m[k].ip == ip;
        assert k in m' && m'[k].ip == ip;
      }
      if ip == l.ip {
        assert m'[l.mac].ip == ip;
      }
    }
    assert ips'.Keys == IpsOf(m');
  }

  lemma RenewKeepsInStep(m: Leases, ips: map<uint32, uint32>, l: Lease)
    requires Coupled(m, ips) && l.mac in m && m[l.mac].ip == l.ip
    ensures Coupled(m[l.mac := l], ips) && |m[l.mac := l]| == |m|
  {
    CoupledFacts(m, ips);
    UpdateSize(m, l.mac, l);
    var m' := m[l.mac := l];
    forall ip ensures ip in IpsOf(m') <==> ip in IpsOf(m) {
      if ip in IpsOf(m) {
        var k :| k in m && m[k].ip == ip;
        assert k in m' && m'[k].ip == ip;
      }
      if ip in IpsOf(m') {
        var k :| k in m' && m'[k].ip == ip;
        assert k in m && m[k].ip == ip;
      }
    }
  }

  // ----- Expired leases found by the scan ----------------------------------

  function MacsIn(found: seq<Lease>): set<Mac> {
    set i | 0 <= i < |found| :: found[i].mac
  }

  /** `found` lists distinct expired leases of `m`. */
  ghost predicate ExpiredList(m: Leases, found: seq<Lease>, now: uint32) {
    && (forall i | 0 <= i < |found| :: found[i].mac in m && m[found[i].mac] == found[i] && found[i].expire <= now)
    && (forall i, j | 0 <= i < j < |found| :: found[i].mac != found[j].mac)
  }

  lemma MacsInAppend(found: seq<Lease>, l: Lease)
    ensures MacsIn(found + [l]) == MacsIn(found) + {l.mac}
  {
    var more := found + [l];
    assert more[|found|] == l;
    forall k | k in MacsIn(found) ensures k in MacsIn(more) {
      var i :| 0 <= i < |found| && found[i].mac == k;
      assert more[i].mac == k;
    }
  }

  lemma {:induction false} MacsInCount(found: seq<Lease>)
    requires forall i, j | 0 <= i < j < |found| :: found[i].mac != found[j].mac
    ensures |MacsIn(found)| == |found|
  {
    if found != [] {
      var last := |found| - 1;
      MacsInCount(found[..last]);
      assert MacsIn(found) == MacsIn(found[..last]) + {found[last].mac};
    }
  }

  /** A list that stopped at the limit, or holds every expired lease, has the
      length a cleanup must have. */
  lemma ExpiredListCount(m: Leases, found: seq<Lease>, now: uint32, limit: nat)
    requires ExpiredList(m, found, now) && |found| <= limit
    requires |found| < limit ==> forall k | k in Expired(m, now) :: k in MacsIn(found)
    ensures |found| == Min(limit, |Expired(m, now)|)
  {
    MacsInCount(found);
    assert MacsIn(found) <= Expired(m, now);
    SubsetCount(MacsIn(found), Expired(m, now));
    if |found| < limit {
      assert MacsIn(found) == Expired(m, now);
    }
  }

  // ----- The pool ----------------------------------------------------------

  class HashPool {
    const leases: HashTable<Mac, Lease>
    const ipSet: HashTable<uint32, uint32>
    const max: nat
    var nextIp: uint32

    /** Both tables are sound and share no memory. */
    ghost predicate Tables()
      reads leases, leases.buckets, leases.occupied, ipSet, ipSet.buckets, ipSet.occupied
    {
      && leases.Valid() && ipSet.Valid() && leases.Repr !! ipSet.Repr
      && this !in leases.Repr && this !in ipSet.Repr
      && leases.layout.key == MacOf && ipSet.layout.key == Itself
      && max <= leases.layout.n && max <= ipSet.layout.n
    }

    ghost predicate Valid()
      reads leases, leases.buckets, leases.occupied, ipSet, ipSet.buckets, ipSet.occupied
    {
      && Tables()
      && Coupled(leases.contents, ipSet.contents) && |ipSet.contents| == |leases.contents|
      && |leases.contents| <= max
    }

    ghost function State(): Pool
      reads this, leases
    {
      Pool(leases.contents, nextIp)
    }

    constructor (start: uint32, maxLeases: nat, n: nat, macHash: Mac -> nat, ipHash: uint32 -> nat)
      requires n > 0
      ensures Valid() && fresh(leases.Repr) && fresh(ipSet.Repr)
      ensures max == Min(n, maxLeases) && State() == Pool(map[], start)
    {
      leases := new HashTable(n, macHash, MacOf, Lease(0, 0, 0));
      ipSet := new HashTable(n, ipHash, Itself, 0);
      nextIp := start;
      max := if n < maxLeases then n else maxLeases;
    }

    method FindLease(mac: Mac) returns (r: Option<nat>)
      requires Tables()
      ensures r.Some? <==> mac in leases.contents
      ensures r.Some? ==> r.value < leases.layout.n && leases.occupied[r.value]
                          && leases.buckets[r.value].mac == mac && leases.buckets[r.value] == leases.contents[mac]
    {
      r := leases.Find(mac);
    }

    /** Removes one lease and its address. */
    method Drop(l: Lease)
      requires Valid() && l.mac in leases.contents && leases.contents[l.mac] == l
      modifies leases, leases.buckets, leases.occupied, ipSet, ipSet.buckets, ipSet.occupied
      ensures Valid() && leases.contents == old(leases.contents) - {l.mac}
    {
      DropKeepsInStep(leases.contents, ipSet.contents, l.mac);
      DeleteBoth(l.mac, l.ip);
    }

    method DeleteBoth(mac: Mac, ip: uint32)
      requires Tables()
      modifies leases, leases.buckets, leases.occupied, ipSet, ipSet.buckets, ipSet.occupied
      ensures Tables()
      ensures leases.contents == old(leases.contents) - {mac} && ipSet.contents == old(ipSet.contents) - {ip}
    {
      var _ := leases.Delete(mac);
      var _ := ipSet.Delete(ip);
    }

    /** Collects at most 32 expired leases in slot order. */
    method CollectExpired(now: uint32) returns (found: seq<Lease>)
      requires Valid()
      ensures ExpiredList(leases.contents, found, now)
      ensures |found| == Min(HASHMAP_LIMIT, |Expired(leases.contents, now)|)
    {
      found := [];
      leases.SlotFacts();
      var i := 0;
      while i < leases.layout.n && |found| < HASHMAP_LIMIT
        invariant i <= leases.layout.n && |found| <= HASHMAP_LIMIT
        invariant ExpiredList(leases.contents, found, now)
        invariant forall p | 0 <= p < leases.layout.n && leases.occupied[p] ::
                    leases.buckets[p].mac in MacsIn(found) <==> p < i && leases.buckets[p].expire <= now
      {
        if leases.occupied[i] && leases.buckets[i].expire <= now {
          MacsInAppend(found, leases.buckets[i]);
          found := found + [leases.buckets[i]];
        }
        i := i + 1;
      }
      if |found| < HASHMAP_LIMIT {
        forall k | k in Expired(leases.contents, now) ensures k in MacsIn(found) {
          var p := leases.SlotOf(k);
        }
      }
      ExpiredListCount(leases.contents, found, now, HASHMAP_LIMIT);
    }

    /** A cleanup frees exactly min(32, number of expired) leases, all expired,
        although every deletion may move other leases. */
    method Cleanup(now: uint32)
      requires Valid()
      modifies leases, leases.buckets, leases.occupied, ipSet, ipSet.buckets, ipSet.occupied
      ensures Valid()
      ensures Cleaned(HASHMAP_LIMIT, old(leases.contents), leases.contents, now)
      ensures |leases.contents| == old(|leases.contents|) - Min(32, |Expired(old(leases.contents), now)|)
    {
      ghost var before := leases.contents;
      var found := CollectExpired(now);
      for j := 0 to |found|
        invariant Valid()
        invariant leases.contents == before - MacsIn(found[..j])
      {
        DropNext(before, found, now, j);
        Drop(found[j]);
      }
      assert found[..|found|] == found;
      CleanedBy(before, found, now);
    }

    method FindAvailableIp(cfg: Config, mac: Mac, now: uint32) returns (ip: uint32, ghost cleaned: Leases)
      requires Valid()
      modifies this, leases, leases.buckets, leases.occupied, ipSet, ipSet.buckets, ipSet.occupied
      ensures Valid()
      ensures Tidied(HASHMAP_LIMIT, max, old(leases.contents), now, cleaned)
      ensures (State(), ip) == FindAvailable(cfg, max, Pool(cleaned, old(nextIp)), mac)
    {
      var size := leases.Size();
      if size >= max {
        Cleanup(now);
      }
      cleaned := leases.contents;
      ip := FindNow(cfg, mac);
    }

    method FindNow(cfg: Config, mac: Mac) returns (ip: uint32)
      requires Valid()
      modifies this`nextIp
      ensures (State(), ip) == FindAvailable(cfg, max, old(State()), mac)
    {
      var existing := FindLease(mac);
      if existing.Some? {
        return leases.buckets[existing.value].ip;
      }
      var size := leases.Size();
      if size >= max {
        return 0;
      }
      assert ipSet.contents.Keys == IpsOf(leases.contents) by {
        CoupledFacts(leases.contents, ipSet.contents);
      }
      ip := Rotate(cfg, IpsOf(leases.contents));
    }

    /** The loop over candidate addresses. */
    method Rotate(cfg: Config, ghost taken: set<uint32>) returns (ip: uint32)
      requires ipSet.Valid() && this !in ipSet.Repr && ipSet.contents.Keys == taken
      modifies this`nextIp
      ensures (ip, nextIp) == Search(cfg, taken, old(nextIp), cfg.RangeSize())
    {
      var range := cfg.RangeSize();
      for count := 0 to range
        invariant Search(cfg, taken, old(nextIp), range) == Search(cfg, taken, nextIp, range - count)
      {
        ip := nextIp;
        nextIp := NextIp(cfg, ip);
        var used := ipSet.Find(ip);
        if used.None? {
          return;
        }
      }
      ip := 0;
    }

    /** Inserts a lease in both tables, or, undoing the first insertion when the
        second fails, in neither. With tables of the pool's size neither fails. */
    method InsertBoth(l: Lease) returns (ok: bool)
      requires Tables() && l.mac !in leases.contents
      modifies leases, leases.buckets, leases.occupied, ipSet, ipSet.buckets, ipSet.occupied
      ensures Tables()
      ensures ok <==> old(|leases.contents|) < leases.layout.n && old(|ipSet.contents|) < ipSet.layout.n
      ensures leases.contents == if ok then old(leases.contents)[l.mac := l] else old(leases.contents)
      ensures ipSet.contents == if ok then old(ipSet.contents)[l.ip := l.ip] else old(ipSet.contents)
    {
      ghost var before := leases.contents;
      var first := leases.Insert(l);
      if !first {
        return false;
      }
      var second := ipSet.Insert(l.ip);
      if !second {
        var _ := leases.Delete(l.mac);
        assert before[l.mac := l] - {l.mac} == before;
        return false;
      }
      return true;
    }

    method AllocLease(cfg: Config, ip: uint32, mac: Mac, now: uint32) returns (ok: bool, ghost cleaned: Leases)
      requires Valid() && cfg.InPool(ip)
      modifies this, leases, leases.buckets, leases.occupied, ipSet, ipSet.buckets, ipSet.occupied
      ensures Valid()
      ensures Tidied(HASHMAP_LIMIT, max, old(leases.contents), now, cleaned)
      ensures (State(), if ok then Ack(ip) else Nak)
           == React(cfg, max, Pool(cleaned, old(nextIp)), now, Request(mac, Some(ip)))
    {
      var size := leases.Size();
      if size >= max {
        Cleanup(now);
      }
      cleaned := leases.contents;
      ok := AllocCleaned(cfg, ip, mac, now);
    }

    method AllocCleaned(cfg: Config, ip: uint32, mac: Mac, now: uint32) returns (ok: bool)
      requires Valid() && cfg.InPool(ip)
      modifies leases, leases.buckets, leases.occupied, ipSet, ipSet.buckets, ipSet.occupied
      ensures Valid()
      ensures (State(), if ok then Ack(ip) else Nak) == React(cfg, max, old(State()), now, Request(mac, Some(ip)))
    {
      RequestReaction(cfg, max, State(), now, mac, ip);
      ok := AllocNow(ip, mac, Wrap(now + cfg.leaseTime));
    }

    method AllocNow(ip: uint32, mac: Mac, expire: uint32) returns (ok: bool)
      requires Valid()
      modifies leases, leases.buckets, leases.occupied, ipSet, ipSet.buckets, ipSet.occupied
      ensures Valid()
      ensures ok == CanAllocate(max, old(leases.contents), mac, ip)
      ensures leases.contents == Allocate(max, old(leases.contents), mac, ip, expire)
    {
      var existing := FindLease(mac);
      var l := Lease(mac, ip, expire);
      if existing.Some? {
        if leases.buckets[existing.value].ip != ip {
          return false;
        }
        Renew(existing.value, l);
        return true;
      }
      var used := IsLeased(ip);
      if used {
        return false;
      }
      var size := leases.Size();
      if size >= max {
        return false;
      }
      ok := AddNew(l);
    }

    method IsLeased(ip: uint32) returns (r: bool)
      requires Valid()
      ensures r <==> ip in ipSet.contents
      ensures r <==> ip in IpsOf(leases.contents)
    {
      CoupledFacts(leases.contents, ipSet.contents);
      var used := ipSet.Find(ip);
      r := used.Some?;
    }

    method Renew(i: nat, l: Lease)
      requires Valid() && i < leases.layout.n && leases.occupied[i] && leases.buckets[i].mac == l.mac
      requires l.mac in leases.contents && leases.contents[l.mac].ip == l.ip
      modifies leases, leases.buckets, leases.occupied
      ensures Valid() && leases.contents == old(leases.contents)[l.mac := l]
    {
      RenewKeepsInStep(leases.contents, ipSet.contents, l);
      leases.Overwrite(i, l);
    }

    /** In a pool that is not full neither insertion fails, so nothing is undone. */
    method AddNew(l: Lease) returns (ok: bool)
      requires Valid() && l.mac !in leases.contents && l.ip !in ipSet.contents && |leases.contents| < max
      modifies leases, leases.buckets, leases.occupied, ipSet, ipSet.buckets, ipSet.occupied
      ensures Valid() && ok && leases.contents == old(leases.contents)[l.mac := l]
    {
      AddKeepsInStep(leases.contents, ipSet.contents, l);
      ok := InsertBoth(l);
    }

    method DeclineLease(mac: Mac)
      requires Valid()
      modifies leases, leases.buckets, leases.occupied, ipSet, ipSet.buckets, ipSet.occupied
      ensures Valid()
      ensures leases.contents == old(leases.contents) - {mac}
    {
      var r := FindLease(mac);
      if r.None? {
        assert leases.contents - {mac} == leases.contents;
        return;
      }
      DropKeepsInStep(leases.contents, ipSet.contents, mac);
      DeleteIpFirst(mac, leases.buckets[r.value].ip);
    }

    method DeleteIpFirst(mac: Mac, ip: uint32)
      requires Tables()
      modifies leases, leases.buckets, leases.occupied, ipSet, ipSet.buckets, ipSet.occupied
      ensures Tables()
      ensures leases.contents == old(leases.contents) - {mac} && ipSet.contents == old(ipSet.contents) - {ip}
    {
      var _ := ipSet.Delete(ip);
      var _ := leases.Delete(mac);
    }
  }

  lemma DropNext(before: Leases, found: seq<Lease>, now: uint32, j: nat)
    requires ExpiredList(before, found, now) && j < |found|
    ensures var left := before - MacsIn(found[..j]);
            && found[j].mac in left && left[found[j].mac] == found[j]
            && left - {found[j].mac} == before - MacsIn(found[..j + 1])
  {
    assert found[j].mac !in MacsIn(found[..j]);
    assert found[..j + 1] == found[..j] + [found[j]];
    MacsInAppend(found[..j], found[j]);
  }

  lemma CleanedBy(before: Leases, found: seq<Lease>, now: uint32)
    requires ExpiredList(before, found, now)
    requires |found| == Min(HASHMAP_LIMIT, |Expired(before, now)|)
    ensures Cleaned(HASHMAP_LIMIT, before, before - MacsIn(found), now)
  {
    MacsInCount(found);
    assert MacsIn(found) <= before.Keys;
    MinusSize(before, MacsIn(found));
  }
}
