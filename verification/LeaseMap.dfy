/** What the MAC-keyed servers (ARRAY and HASHMAP) promise, as a transition system
    over a map from MAC addresses to leases. */
module LeaseMap {
  import opened Wrappers

  type Mac = m: int | 0 <= m < 0x1_0000_0000_0000

  datatype Lease = Lease(mac: Mac, ip: uint32, expire: uint32)

  datatype Config = Config(poolStart: uint32, poolEnd: uint32, leaseTime: uint32) {
    predicate InPool(ip: uint32) {
      poolStart <= ip <= poolEnd
    }

    /** Number of pool addresses, in 32-bit arithmetic. */
    function RangeSize(): (n: uint32) {
      Wrap(poolEnd - poolStart + 1)
    }

    predicate NonEmpty() {
      poolStart <= poolEnd
    }

    /** A pool that does not contain the address 0, which stands for "none". */
    predicate Proper() {
      0 < poolStart && NonEmpty()
    }
  }

  datatype Message =
    | Discover(mac: Mac)
    | Request(mac: Mac, requested: Option<uint32>)
    | Decline(mac: Mac)
    | Other(mac: Mac)

  datatype Reply = NoReply | Offer(ip: uint32) | Ack(ip: uint32) | Nak

  type Leases = map<Mac, Lease>

  datatype Pool = Pool(leases: Leases, nextIp: uint32)

  // ----- Expiry ------------------------------------------------------------

  function Expired(leases: Leases, now: uint32): set<Mac> {
    set m | m in leases && leases[m].expire <= now
  }

  /** `after` is `before` without expired leases, all of them or `limit`. */
  ghost predicate Cleaned(limit: nat, before: Leases, after: Leases, now: uint32) {
    && (forall m | m in after :: m in before && after[m] == before[m])
    && (forall m | m in before && m !in after :: m in Expired(before, now))
    && |after| == |before| - Min(limit, |Expired(before, now)|)
  }

  /** `after` is what a message finds in the table: a full table is cleaned first. */
  ghost predicate Tidied(limit: nat, max: nat, before: Leases, now: uint32, after: Leases) {
    if |before| >= max then Cleaned(limit, before, after, now) else after == before
  }

  function CleanAll(leases: Leases, now: uint32): Leases {
    leases - Expired(leases, now)
  }

  // ----- Address search ----------------------------------------------------

  function IpsOf(leases: Leases): set<uint32> {
    set m | m in leases :: leases[m].ip
  }

  /** The address the search looks at after `ip`. */
  function NextIp(cfg: Config, ip: uint32): (r: uint32)
    requires cfg.RangeSize() > 0
    ensures cfg.NonEmpty() && cfg.InPool(ip) ==>
              cfg.InPool(r) && r == if ip == cfg.poolEnd then cfg.poolStart else ip + 1
  {
    ModOnce(Wrap(ip - cfg.poolStart + 1), cfg.RangeSize());
    Wrap(cfg.poolStart + (Wrap(ip - cfg.poolStart + 1) % cfg.RangeSize()))
  }

  /** Look at up to `count` addresses from `next` on; the found address (or 0) and
      the address to start from next time. */
  function Search(cfg: Config, taken: set<uint32>, next: uint32, count: nat): (r: (uint32, uint32))
    requires count <= cfg.RangeSize()
    decreases count
  {
    if count == 0 then (0, next)
    else if next !in taken then (next, NextIp(cfg, next))
    else Search(cfg, taken, NextIp(cfg, next), count - 1)
  }

  // ----- Reactions ---------------------------------------------------------

  /** The pool after a cleanup handles a DISCOVER: address to offer (0 for none). */
  function FindAvailable(cfg: Config, max: nat, p: Pool, mac: Mac): (r: (Pool, uint32)) {
    if mac in p.leases then (p, p.leases[mac].ip)
    else if |p.leases| >= max then (p, 0)
    else
      var (ip, next) := Search(cfg, IpsOf(p.leases), p.nextIp, cfg.RangeSize());
      (p.(nextIp := next), ip)
  }

  /** A client may have `ip` when it holds it already, or when it holds nothing, nobody
      else has `ip`, and there is room. */
  predicate CanAllocate(max: nat, leases: Leases, mac: Mac, ip: uint32) {
    if mac in leases then leases[mac].ip == ip else ip !in IpsOf(leases) && |leases| < max
  }

  /** The leases after a REQUEST for a pool address. */
  function Allocate(max: nat, leases: Leases, mac: Mac, ip: uint32, expire: uint32): Leases {
    if CanAllocate(max, leases, mac, ip) then leases[mac := Lease(mac, ip, expire)] else leases
  }

  function React(cfg: Config, max: nat, p: Pool, now: uint32, msg: Message): (r: (Pool, Reply)) {
    match msg
    case Discover(mac) =>
      var (p', ip) := FindAvailable(cfg, max, p, mac);
      (p', if ip == 0 then NoReply else Offer(ip))
    case Request(mac, Some(ip)) =>
      if !cfg.InPool(ip) then (p, Nak)
      else
        (p.(leases := Allocate(max, p.leases, mac, ip, Wrap(now + cfg.leaseTime))),
         if CanAllocate(max, p.leases, mac, ip) then Ack(ip) else Nak)
    case Request(_, None) => (p, NoReply)
    case Decline(mac) => (p.(leases := p.leases - {mac}), NoReply)
    case Other(_) => (p, NoReply)
  }

  /** A REQUEST for a pool address is answered by the outcome of the allocation. */
  lemma RequestReaction(cfg: Config, max: nat, q: Pool, now: uint32, mac: Mac, ip: uint32)
    requires cfg.InPool(ip)
    ensures React(cfg, max, q, now, Request(mac, Some(ip)))
         == (q.(leases := Allocate(max, q.leases, mac, ip, Wrap(now + cfg.leaseTime))),
             if CanAllocate(max, q.leases, mac, ip) then Ack(ip) else Nak)
  {
  }

  /** The messages whose handling looks for expired leases first. */
  predicate LooksForExpired(cfg: Config, msg: Message) {
    msg.Discover? || (msg.Request? && msg.requested.Some? && cfg.InPool(msg.requested.value))
  }

  predicate MustClean(cfg: Config, max: nat, p: Pool, msg: Message) {
    LooksForExpired(cfg, msg) && |p.leases| >= max
  }

  /** The leases at the moment the message itself is looked at. */
  ghost predicate Prepared(limit: nat, cfg: Config, max: nat, p: Pool, now: uint32, msg: Message, leases: Leases) {
    if LooksForExpired(cfg, msg) then Tidied(limit, max, p.leases, now, leases) else leases == p.leases
  }

  /** One message handled by a server that frees at most `limit` leases at once. */
  ghost predicate Step(limit: nat, cfg: Config, max: nat, p: Pool, now: uint32, msg: Message, p': Pool, reply: Reply) {
    exists leases :: Prepared(limit, cfg, max, p, now, msg, leases)
                     && React(cfg, max, p.(leases := leases), now, msg) == (p', reply)
  }

  /** A full pool is cleaned before it is looked at. */
  function CleanedWhenFull(max: nat, leases: Leases, now: uint32): Leases {
    if |leases| >= max then CleanAll(leases, now) else leases
  }

  /** The server that frees every expired lease is a function. */
  function StepAll(cfg: Config, max: nat, p: Pool, now: uint32, msg: Message): (Pool, Reply) {
    var q := if LooksForExpired(cfg, msg) then p.(leases := CleanedWhenFull(max, p.leases, now)) else p;
    React(cfg, max, q, now, msg)
  }

  // ----- Cleaning ----------------------------------------------------------

  lemma CleanAllCount(leases: Leases, now: uint32)
    ensures Expired(leases, now) <= leases.Keys
    ensures CleanAll(leases, now).Keys == leases.Keys - Expired(leases, now)
    ensures |CleanAll(leases, now)| == |leases| - |Expired(leases, now)|
  {
    assert Expired(leases, now) <= leases.Keys;
    MinusSize(leases, Expired(leases, now));
  }

  /** A bounded cleanup does what a full one does exactly when the number of
      expired leases does not exceed the bound. */
  lemma BoundedCleanIsFullClean(limit: nat, before: Leases, after: Leases, now: uint32)
    requires Cleaned(limit, before, after, now)
    ensures after == CleanAll(before, now) <==> |Expired(before, now)| <= limit
  {
    CleanAllCount(before, now);
    SubmapSize(CleanAll(before, now), after);
  }

  lemma FullCleanIsCleaned(limit: nat, before: Leases, now: uint32)
    requires |Expired(before, now)| <= limit
    ensures Cleaned(limit, before, CleanAll(before, now), now)
  {
    CleanAllCount(before, now);
  }

  // ----- Invariant ---------------------------------------------------------

  ghost predicate UniqueIps(leases: Leases) {
    forall m, m' {:trigger leases[m].ip, leases[m'].ip}
      | m in leases && m' in leases && leases[m].ip == leases[m'].ip :: m == m'
  }

  /** What every reachable pool satisfies. */
  ghost predicate Inv(cfg: Config, max: nat, p: Pool) {
    && (forall m | m in p.leases :: p.leases[m].mac == m)
    && (forall m | m in p.leases :: cfg.InPool(p.leases[m].ip))
    && UniqueIps(p.leases)
    && |p.leases| <= max
    && (cfg.NonEmpty() ==> cfg.InPool(p.nextIp))
  }

  lemma PreparedInv(limit: nat, cfg: Config, max: nat, p: Pool, now: uint32, msg: Message, leases: Leases)
    requires Inv(cfg, max, p) && Prepared(limit, cfg, max, p, now, msg, leases)
    ensures Inv(cfg, max, p.(leases := leases))
  {
  }

  lemma FindAvailableInv(cfg: Config, max: nat, p: Pool, mac: Mac)
    requires Inv(cfg, max, p)
    ensures Inv(cfg, max, FindAvailable(cfg, max, p, mac).0)
  {
    SearchInPool(cfg, IpsOf(p.leases), p.nextIp, cfg.RangeSize());
  }

  lemma AllocateInv(cfg: Config, max: nat, p: Pool, mac: Mac, ip: uint32, expire: uint32)
    requires Inv(cfg, max, p) && cfg.InPool(ip)
    ensures Inv(cfg, max, p.(leases := Allocate(max, p.leases, mac, ip, expire)))
  {
    var l := Lease(mac, ip, expire);
    UpdateSize(p.leases, mac, l);
    forall m | m in p.leases && p.leases[m].ip == ip ensures ip in IpsOf(p.leases) {}
  }

  lemma DeclineInv(cfg: Config, max: nat, p: Pool, mac: Mac)
    requires Inv(cfg, max, p)
    ensures Inv(cfg, max, p.(leases := p.leases - {mac}))
  {
    SubmapSize(p.leases - {mac}, p.leases);
  }

  lemma ReactInv(cfg: Config, max: nat, p: Pool, now: uint32, msg: Message)
    requires Inv(cfg, max, p)
    ensures Inv(cfg, max, React(cfg, max, p, now, msg).0)
  {
    match msg
    case Discover(mac) => FindAvailableInv(cfg, max, p, mac);
    case Request(mac, Some(ip)) =>
      if cfg.InPool(ip) {
        AllocateInv(cfg, max, p, mac, ip, Wrap(now + cfg.leaseTime));
      }
    case Decline(mac) => DeclineInv(cfg, max, p, mac);
    case _ =>
  }

  /** The leases a step worked on after its cleanup. */
  lemma StepLeases(limit: nat, cfg: Config, max: nat, p: Pool, now: uint32, msg: Message, p': Pool, reply: Reply)
    returns (leases: Leases)
    requires Step(limit, cfg, max, p, now, msg, p', reply)
    ensures Prepared(limit, cfg, max, p, now, msg, leases)
    ensures React(cfg, max, p.(leases := leases), now, msg) == (p', reply)
  {
    leases :| Prepared(limit, cfg, max, p, now, msg, leases)
              && React(cfg, max, p.(leases := leases), now, msg) == (p', reply);
  }

  /** Every step keeps the invariant, however many leases a cleanup frees. */
  lemma StepInv(limit: nat, cfg: Config, max: nat, p: Pool, now: uint32, msg: Message, p': Pool, reply: Reply)
    requires Inv(cfg, max, p) && Step(limit, cfg, max, p, now, msg, p', reply)
    ensures Inv(cfg, max, p')
  {
    var leases := StepLeases(limit, cfg, max, p, now, msg, p', reply);
    PreparedInv(limit, cfg, max, p, now, msg, leases);
    ReactInv(cfg, max, p.(leases := leases), now, msg);
  }

  // ----- The rotating search -----------------------------------------------

  /** The address at distance `k` from `from`, going round the pool. */
  function Rotated(cfg: Config, from: uint32, k: nat): (r: int)
    requires cfg.Proper() && cfg.InPool(from) && k < cfg.RangeSize()
  {
    if from + k <= cfg.poolEnd then from + k else from + k - cfg.RangeSize()
  }

  /** Going round visits every pool address exactly once. */
  lemma RotationIsBijective(cfg: Config, from: uint32)
    requires cfg.Proper() && cfg.InPool(from)
    ensures forall k | 0 <= k < cfg.RangeSize() :: cfg.poolStart <= Rotated(cfg, from, k) <= cfg.poolEnd
    ensures forall k, l | 0 <= k < l < cfg.RangeSize() :: Rotated(cfg, from, k) != Rotated(cfg, from, l)
    ensures forall ip: uint32 | cfg.InPool(ip) :: exists k :: 0 <= k < cfg.RangeSize() && Rotated(cfg, from, k) == ip
  {
    forall ip: uint32 | cfg.InPool(ip) ensures exists k :: 0 <= k < cfg.RangeSize() && Rotated(cfg, from, k) == ip {
      var k := if ip >= from then ip - from else ip - from + cfg.RangeSize();
      assert Rotated(cfg, from, k) == ip;
    }
  }

  lemma {:induction false} SearchInPool(cfg: Config, taken: set<uint32>, next: uint32, count: nat)
    requires count <= cfg.RangeSize()
    ensures var (ip, next') := Search(cfg, taken, next, count);
            && (ip != 0 ==> ip !in taken)
            && (cfg.NonEmpty() && cfg.InPool(next) ==> cfg.InPool(next') && (ip != 0 ==> cfg.InPool(ip)))
    decreases count
  {
    if count > 0 && next in taken {
      SearchInPool(cfg, taken, NextIp(cfg, next), count - 1);
    }
  }

  /** The search returns the first free address in rotation order, and the address
      after it; it returns 0 only when all `count` addresses are taken. */
  lemma {:induction false} SearchFirst(cfg: Config, taken: set<uint32>, from: uint32, k: nat, count: nat)
    requires cfg.Proper() && cfg.InPool(from) && k + count == cfg.RangeSize() && k < cfg.RangeSize()
    ensures var (ip, next') := Search(cfg, taken, Rotated(cfg, from, k), count);
            if ip == 0 then
              next' == from && forall i | k <= i < k + count :: Rotated(cfg, from, i) in taken
            else
              exists j :: k <= j < k + count && ip == Rotated(cfg, from, j) && ip !in taken
                && next' == NextIp(cfg, ip) && forall i | k <= i < j :: Rotated(cfg, from, i) in taken
    decreases count
  {
    var here := Rotated(cfg, from, k);
    if here in taken {
      if count == 1 {
        assert NextIp(cfg, here) == from;
      } else {
        assert NextIp(cfg, here) == Rotated(cfg, from, k + 1);
        SearchFirst(cfg, taken, from, k + 1, count - 1);
      }
    }
  }

  lemma {:induction false} PoolAddressCount(cfg: Config, lo: uint32, taken: set<uint32>)
    requires cfg.Proper() && cfg.poolStart <= lo <= cfg.poolEnd
    requires forall ip: uint32 | lo <= ip <= cfg.poolEnd :: ip in taken
    ensures |taken| >= cfg.poolEnd - lo + 1
    decreases cfg.poolEnd - lo
  {
    if lo < cfg.poolEnd {
      PoolAddressCount(cfg, lo + 1, taken - {lo});
    } else {
      assert taken == (taken - {lo}) + {lo};
    }
  }

  lemma {:induction false} IpsOfCount(leases: Leases)
    ensures |IpsOf(leases)| <= |leases|
    decreases |leases|
  {
    if leases != map[] {
      var m :| m in leases;
      var rest := leases - {m};
      MinusSize(leases, {m});
      assert leases == rest[m := leases[m]];
      IpsOfCount(rest);
      assert IpsOf(leases) == IpsOf(rest) + {leases[m].ip};
      assert |IpsOf(leases)| <= |IpsOf(rest)| + 1;
    }
  }

  /** Pigeonhole: while the lease table is not full and no larger than the pool, a
      new client is always offered a free pool address. */
  lemma NewClientIsOffered(cfg: Config, max: nat, p: Pool, mac: Mac)
    requires cfg.Proper() && Inv(cfg, max, p) && max <= cfg.RangeSize()
    requires mac !in p.leases && |p.leases| < max
    ensures var (p', ip) := FindAvailable(cfg, max, p, mac);
            ip != 0 && cfg.InPool(ip) && ip !in IpsOf(p.leases) && p'.leases == p.leases
  {
    var taken := IpsOf(p.leases);
    SearchFirst(cfg, taken, p.nextIp, 0, cfg.RangeSize());
    SearchInPool(cfg, taken, p.nextIp, cfg.RangeSize());
    if FindAvailable(cfg, max, p, mac).1 == 0 {
      RotationIsBijective(cfg, p.nextIp);
      forall ip: uint32 | cfg.InPool(ip) ensures ip in taken {
        var k :| 0 <= k < cfg.RangeSize() && Rotated(cfg, p.nextIp, k) == ip;
      }
      PoolAddressCount(cfg, cfg.poolStart, taken);
      IpsOfCount(p.leases);
      assert false;
    }
  }

  // ----- Offers are honoured -----------------------------------------------

  /** An offered address can be allocated to the client it was offered to. */
  lemma OfferLeavesRoom(cfg: Config, max: nat, p: Pool, now: uint32, mac: Mac)
    requires cfg.NonEmpty() && Inv(cfg, max, p)
    ensures var (p', reply) := React(cfg, max, p, now, Discover(mac));
            p'.leases == p.leases
            && (reply.Offer? ==> cfg.InPool(reply.ip) && CanAllocate(max, p'.leases, mac, reply.ip))
  {
    SearchInPool(cfg, IpsOf(p.leases), p.nextIp, cfg.RangeSize());
  }

  /** A cleanup that left the table full found nothing to free, so a second one at
      the same time frees nothing. */
  lemma SecondCleanupIsIdle(limit: nat, max: nat, l0: Leases, l1: Leases, l2: Leases, now: uint32)
    requires limit > 0 && |l0| <= max
    requires Tidied(limit, max, l0, now, l1) && Tidied(limit, max, l1, now, l2)
    ensures l2 == l1
  {
    if |l1| >= max {
      SubmapSize(l1, l0);
      SubmapSize(l2, l1);
    }
  }

  lemma RoomIsUsed(cfg: Config, max: nat, p: Pool, now: uint32, mac: Mac, ip: uint32)
    requires cfg.InPool(ip) && CanAllocate(max, p.leases, mac, ip)
    ensures var (p', reply) := React(cfg, max, p, now, Request(mac, Some(ip)));
            reply == Ack(ip) && mac in p'.leases && p'.leases[mac] == Lease(mac, ip, Wrap(now + cfg.leaseTime))
  {
  }

  /** A REQUEST for the address just offered, by the same client at the same time,
      is acknowledged, whether or not cleanups ran. */
  lemma OfferIsHonoured(limit: nat, cfg: Config, max: nat, p: Pool, now: uint32, mac: Mac,
                        p1: Pool, ip: uint32, p2: Pool, reply: Reply)
    requires limit > 0 && cfg.NonEmpty() && Inv(cfg, max, p)
    requires Step(limit, cfg, max, p, now, Discover(mac), p1, Offer(ip))
    requires Step(limit, cfg, max, p1, now, Request(mac, Some(ip)), p2, reply)
    ensures reply == Ack(ip)
    ensures mac in p2.leases && p2.leases[mac] == Lease(mac, ip, Wrap(now + cfg.leaseTime))
  {
    var l1 := StepLeases(limit, cfg, max, p, now, Discover(mac), p1, Offer(ip));
    assert Inv(cfg, max, p.(leases := l1)) by {
      PreparedInv(limit, cfg, max, p, now, Discover(mac), l1);
    }
    OfferLeavesRoom(cfg, max, p.(leases := l1), now, mac);
    var l2 := StepLeases(limit, cfg, max, p1, now, Request(mac, Some(ip)), p2, reply);
    assert p1.(leases := l2) == p1 by {
      SecondCleanupIsIdle(limit, max, p.leases, l1, l2, now);
    }
    RoomIsUsed(cfg, max, p1, now, mac, ip);
  }

  // ----- What a message does -----------------------------------------------

  /** Expiry is lazy: a message removes other clients' leases only from a full table and
      only expired ones, changes none, and adds none. */
  lemma StepFrame(limit: nat, cfg: Config, max: nat, p: Pool, now: uint32, msg: Message, p': Pool, reply: Reply)
    requires Step(limit, cfg, max, p, now, msg, p', reply)
    ensures forall m | m in p'.leases && m != msg.mac :: m in p.leases && p'.leases[m] == p.leases[m]
    ensures forall m | m in p.leases && m !in p'.leases && m != msg.mac ::
              |p.leases| >= max && p.leases[m].expire <= now
  {
    var leases := StepLeases(limit, cfg, max, p, now, msg, p', reply);
  }

  /** A client whose lease has not run out is offered the address it has; leases and
      rotation change only by the cleanup of a full table. */
  lemma KnownClientIsOffered(limit: nat, cfg: Config, max: nat, p: Pool, now: uint32, mac: Mac, p': Pool, reply: Reply)
    requires Step(limit, cfg, max, p, now, Discover(mac), p', reply)
    requires mac in p.leases && now < p.leases[mac].expire
    ensures reply == if p.leases[mac].ip != 0 then Offer(p.leases[mac].ip) else NoReply
    ensures p'.nextIp == p.nextIp && Tidied(limit, max, p.leases, now, p'.leases)
    ensures mac in p'.leases && p'.leases[mac] == p.leases[mac]
  {
    var leases := StepLeases(limit, cfg, max, p, now, Discover(mac), p', reply);
  }

  /** A client without a lease is offered the first address in rotation order that nobody
      has, if there is room after the cleanup; leases change only by the cleanup, and the
      rotation goes on after the address. */
  lemma NewClientStep(limit: nat, cfg: Config, max: nat, p: Pool, now: uint32, mac: Mac, p': Pool, reply: Reply)
    requires cfg.Proper() && Inv(cfg, max, p) && Step(limit, cfg, max, p, now, Discover(mac), p', reply)
    requires mac !in p.leases
    ensures Tidied(limit, max, p.leases, now, p'.leases)
    ensures |p'.leases| >= max ==> reply == NoReply && p'.nextIp == p.nextIp
    ensures reply != NoReply ==>
              && reply.Offer? && cfg.InPool(reply.ip) && p'.nextIp == NextIp(cfg, reply.ip)
              && (forall m | m in p'.leases :: p'.leases[m].ip != reply.ip)
              && exists k :: 0 <= k < cfg.RangeSize() && reply.ip == Rotated(cfg, p.nextIp, k)
                   && forall i | 0 <= i < k ::
                        exists m :: m in p'.leases && p'.leases[m].ip == Rotated(cfg, p.nextIp, i)
    ensures |p'.leases| < max <= cfg.RangeSize() ==> reply != NoReply
  {
    var leases := StepLeases(limit, cfg, max, p, now, Discover(mac), p', reply);
    PreparedInv(limit, cfg, max, p, now, Discover(mac), leases);
    SearchFirst(cfg, IpsOf(leases), p.nextIp, 0, cfg.RangeSize());
    SearchInPool(cfg, IpsOf(leases), p.nextIp, cfg.RangeSize());
    if |leases| < max <= cfg.RangeSize() {
      NewClientIsOffered(cfg, max, p.(leases := leases), mac);
    }
  }

  /** A full table with an expired lease serves a new client. */
  lemma ExpiredIsReclaimed(limit: nat, cfg: Config, max: nat, p: Pool, now: uint32, mac: Mac, old': Mac,
                           p': Pool, reply: Reply)
    requires limit > 0 && cfg.Proper() && Inv(cfg, max, p) && max <= cfg.RangeSize()
    requires Step(limit, cfg, max, p, now, Discover(mac), p', reply) && mac !in p.leases
    requires |p.leases| == max && old' in p.leases && p.leases[old'].expire <= now
    ensures |p'.leases| < max && reply.Offer? && forall m | m in p'.leases :: p'.leases[m].ip != reply.ip
  {
    NewClientStep(limit, cfg, max, p, now, mac, p', reply);
    assert old' in Expired(p.leases, now);
  }

  /** May `mac` have `ip`, given who has what? */
  ghost predicate Entitled(leases: Leases, max: nat, mac: Mac, ip: uint32) {
    || (mac in leases && leases[mac].ip == ip)
    || (mac !in leases && |leases| < max && forall m | m in leases :: leases[m].ip != ip)
  }

  /** A REQUEST for a pool address is acknowledged exactly for a client that has it, or has
      nothing while nobody has it and there is room; then, and only then, the client's lease
      is made to end one lease time later. Nothing else changes but by the cleanup. A
      REQUEST for any other address is refused and changes nothing. */
  lemma RequestVerdict(limit: nat, cfg: Config, max: nat, p: Pool, now: uint32, mac: Mac, ip: uint32,
                       p': Pool, reply: Reply) returns (leases: Leases)
    requires Step(limit, cfg, max, p, now, Request(mac, Some(ip)), p', reply)
    ensures p'.nextIp == p.nextIp
    ensures !(cfg.poolStart <= ip <= cfg.poolEnd) ==> reply == Nak && p' == p
    ensures cfg.poolStart <= ip <= cfg.poolEnd ==>
              && Tidied(limit, max, p.leases, now, leases)
              && reply == (if Entitled(leases, max, mac, ip) then Ack(ip) else Nak)
              && p'.leases == if Entitled(leases, max, mac, ip)
                              then leases[mac := Lease(mac, ip, Wrap(now + cfg.leaseTime))] else leases
  {
    leases := StepLeases(limit, cfg, max, p, now, Request(mac, Some(ip)), p', reply);
    assert ip in IpsOf(leases) <==> exists m :: m in leases && leases[m].ip == ip;
  }

  /** A DECLINE is not answered and removes the client's lease and nothing else. Its address
      is then available to any client without a lease. */
  lemma DeclineFrees(limit: nat, cfg: Config, max: nat, p: Pool, now: uint32, mac: Mac, p1: Pool, r1: Reply,
                     later: uint32, other: Mac, p2: Pool, r2: Reply)
    requires Inv(cfg, max, p) && mac in p.leases && other !in p.leases - {mac}
    requires Step(limit, cfg, max, p, now, Decline(mac), p1, r1)
    requires Step(limit, cfg, max, p1, later, Request(other, Some(p.leases[mac].ip)), p2, r2)
    ensures r1 == NoReply && p1 == p.(leases := p.leases - {mac})
    ensures r2 == Ack(p.leases[mac].ip) && other in p2.leases && p2.leases[other].ip == p.leases[mac].ip
  {
    var l1 := StepLeases(limit, cfg, max, p, now, Decline(mac), p1, r1);
    MinusSize(p.leases, {mac});
    var l2 := RequestVerdict(limit, cfg, max, p1, later, other, p.leases[mac].ip, p2, r2);
  }

  /** Messages of other types, and a REQUEST that names no address, do nothing. */
  lemma OthersDoNothing(limit: nat, cfg: Config, max: nat, p: Pool, now: uint32, msg: Message, p': Pool, reply: Reply)
    requires Step(limit, cfg, max, p, now, msg, p', reply)
    requires msg.Other? || msg == Request(msg.mac, None) || (msg.Decline? && msg.mac !in p.leases)
    ensures p' == p && reply == NoReply
  {
    var leases := StepLeases(limit, cfg, max, p, now, msg, p', reply);
    if msg.Decline? {
      assert p.leases - {msg.mac} == p.leases;
    }
  }
}
