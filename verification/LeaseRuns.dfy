/** Whole runs of the MAC-keyed servers: every message sequence, any number of
    cleanups. */
module LeaseRuns {
  import opened Wrappers
  import opened LeaseMap

  /** The number of expired leases the HASHMAP backend frees per cleanup. */
  const HASHMAP_LIMIT := 32

  /** One handled message, with the clock reading it was handled at. */
  datatype Handled = Handled(now: uint32, msg: Message, reply: Reply)

  ghost predicate StepAt(limit: nat, cfg: Config, max: nat, states: seq<Pool>, log: seq<Handled>, i: nat)
    requires i < |log| < |states|
  {
    Step(limit, cfg, max, states[i], log[i].now, log[i].msg, states[i + 1], log[i].reply)
  }

  /** The run `log` of a server that starts empty and frees at most `limit` leases
      per cleanup; `states` are the pools in between. */
  ghost predicate IsRun(limit: nat, cfg: Config, max: nat, states: seq<Pool>, log: seq<Handled>) {
    && |states| == |log| + 1
    && states[0] == Pool(map[], cfg.poolStart)
    && forall i | 0 <= i < |log| :: StepAt(limit, cfg, max, states, log, i)
  }

  /** The run of a server that frees every expired lease. */
  ghost predicate IsFullRun(cfg: Config, max: nat, states: seq<Pool>, log: seq<Handled>) {
    && |states| == |log| + 1
    && states[0] == Pool(map[], cfg.poolStart)
    && forall i | 0 <= i < |log| ::
         StepAll(cfg, max, states[i], log[i].now, log[i].msg) == (states[i + 1], log[i].reply)
  }

  /** Every reachable pool has unique addresses, all from the pool, and at most
      `max` leases. */
  lemma {:induction false} RunInv(limit: nat, cfg: Config, max: nat, states: seq<Pool>, log: seq<Handled>, k: nat)
    requires IsRun(limit, cfg, max, states, log) && k <= |log|
    ensures Inv(cfg, max, states[k])
  {
    if k > 0 {
      RunInv(limit, cfg, max, states, log, k - 1);
      assert StepAt(limit, cfg, max, states, log, k - 1);
      StepInv(limit, cfg, max, states[k - 1], log[k - 1].now, log[k - 1].msg, states[k], log[k - 1].reply);
    }
  }

  // ----- ARRAY and HASHMAP compared ----------------------------------------

  lemma StepAllIsStep(limit: nat, cfg: Config, max: nat, p: Pool, now: uint32, msg: Message)
    requires MustClean(cfg, max, p, msg) ==> |Expired(p.leases, now)| <= limit
    ensures var (p', reply) := StepAll(cfg, max, p, now, msg); Step(limit, cfg, max, p, now, msg, p', reply)
  {
    var leases := if MustClean(cfg, max, p, msg) then CleanAll(p.leases, now) else p.leases;
    if MustClean(cfg, max, p, msg) {
      FullCleanIsCleaned(limit, p.leases, now);
    }
    assert Prepared(limit, cfg, max, p, now, msg, leases);
    assert p.(leases := leases)
        == if LooksForExpired(cfg, msg) then p.(leases := CleanedWhenFull(max, p.leases, now)) else p;
  }

  /** With few enough expired leases, the bounded server has no choice. */
  lemma StepIsStepAll(limit: nat, cfg: Config, max: nat, p: Pool, now: uint32, msg: Message, p': Pool, reply: Reply)
    requires Step(limit, cfg, max, p, now, msg, p', reply)
    requires MustClean(cfg, max, p, msg) ==> |Expired(p.leases, now)| <= limit
    ensures StepAll(cfg, max, p, now, msg) == (p', reply)
  {
    var leases := StepLeases(limit, cfg, max, p, now, msg, p', reply);
    if MustClean(cfg, max, p, msg) {
      BoundedCleanIsFullClean(limit, p.leases, leases, now);
    }
    assert p.(leases := leases)
        == if LooksForExpired(cfg, msg) then p.(leases := CleanedWhenFull(max, p.leases, now)) else p;
  }

  lemma StepAllInv(cfg: Config, max: nat, p: Pool, now: uint32, msg: Message)
    requires Inv(cfg, max, p)
    ensures Inv(cfg, max, StepAll(cfg, max, p, now, msg).0)
  {
    var (p', reply) := StepAll(cfg, max, p, now, msg);
    CleanAllCount(p.leases, now);
    StepAllIsStep(max, cfg, max, p, now, msg);
    StepInv(max, cfg, max, p, now, msg, p', reply);
  }

  lemma {:induction false} FullRunInv(cfg: Config, max: nat, states: seq<Pool>, log: seq<Handled>, k: nat)
    requires IsFullRun(cfg, max, states, log) && k <= |log|
    ensures Inv(cfg, max, states[k])
  {
    if k > 0 {
      FullRunInv(cfg, max, states, log, k - 1);
      StepAllInv(cfg, max, states[k - 1], log[k - 1].now, log[k - 1].msg);
    }
  }

  /** Every run of the full-cleanup server is a run of a bounded one, so all
      theorems about `IsRun` hold for it too. */
  lemma FullRunIsRun(cfg: Config, max: nat, states: seq<Pool>, log: seq<Handled>)
    requires IsFullRun(cfg, max, states, log)
    ensures IsRun(max + 1, cfg, max, states, log)
  {
    var limit := max + 1;
    forall i | 0 <= i < |log| ensures StepAt(limit, cfg, max, states, log, i) {
      FullRunInv(cfg, max, states, log, i);
      CleanAllCount(states[i].leases, log[i].now);
      StepAllIsStep(max + 1, cfg, max, states[i], log[i].now, log[i].msg);
    }
  }

  /** The two logs record the same messages at the same times. */
  ghost predicate SameInputs(a: seq<Handled>, b: seq<Handled>) {
    |a| == |b| && forall i | 0 <= i < |a| :: a[i].now == b[i].now && a[i].msg == b[i].msg
  }

  /** No cleanup of the run meets more than `limit` expired leases. */
  ghost predicate CleanupsFit(limit: nat, cfg: Config, max: nat, states: seq<Pool>, log: seq<Handled>)
    requires |states| == |log| + 1
  {
    forall i | 0 <= i < |log| && MustClean(cfg, max, states[i], log[i].msg) ::
      |Expired(states[i].leases, log[i].now)| <= limit
  }

  /** HASHMAP and ARRAY servers fed the same messages give the same replies and
      hold the same leases, for as long as no cleanup meets more than 32 expired
      leases. */
  lemma {:induction false} Bisimilar(cfg: Config, max: nat, hash: seq<Pool>, hashLog: seq<Handled>,
                                     arr: seq<Pool>, arrLog: seq<Handled>, k: nat)
    requires IsRun(HASHMAP_LIMIT, cfg, max, hash, hashLog) && IsFullRun(cfg, max, arr, arrLog)
    requires SameInputs(hashLog, arrLog) && k <= |hashLog|
    requires CleanupsFit(HASHMAP_LIMIT, cfg, max, hash, hashLog)
    ensures hash[..k + 1] == arr[..k + 1] && hashLog[..k] == arrLog[..k]
  {
    if k > 0 {
      Bisimilar(cfg, max, hash, hashLog, arr, arrLog, k - 1);
      assert hash[k - 1] == hash[..k][k - 1] == arr[..k][k - 1] == arr[k - 1];
      assert StepAt(HASHMAP_LIMIT, cfg, max, hash, hashLog, k - 1);
      StepIsStepAll(HASHMAP_LIMIT, cfg, max, hash[k - 1], hashLog[k - 1].now, hashLog[k - 1].msg,
                    hash[k], hashLog[k - 1].reply);
      assert hash[..k + 1] == hash[..k] + [hash[k]] && arr[..k + 1] == arr[..k] + [arr[k]];
      assert hashLog[..k] == hashLog[..k - 1] + [hashLog[k - 1]] && arrLog[..k] == arrLog[..k - 1] + [arrLog[k - 1]];
    }
  }

  // ----- Exclusive use of an address ---------------------------------------

  /** `mac` holds `ip` at least until `until`. */
  ghost predicate HeldUntil(p: Pool, mac: Mac, ip: uint32, until: int) {
    mac in p.leases && p.leases[mac].ip == ip && until <= p.leases[mac].expire
  }

  lemma ReactKeepsHeld(cfg: Config, max: nat, p: Pool, now: uint32, msg: Message, mac: Mac, ip: uint32, until: int)
    requires Inv(cfg, max, p) && HeldUntil(p, mac, ip, until)
    requires until <= now + cfg.leaseTime < TWO_32 && msg != Decline(mac)
    ensures var (p', reply) := React(cfg, max, p, now, msg);
            HeldUntil(p', mac, ip, until) && (reply == Ack(ip) || reply == Offer(ip) ==> msg.mac == mac)
  {
    assert p.leases[mac].ip in IpsOf(p.leases);
    SearchInPool(cfg, IpsOf(p.leases), p.nextIp, cfg.RangeSize());
  }

  lemma StepKeepsHeld(limit: nat, cfg: Config, max: nat, p: Pool, now: uint32, msg: Message, p': Pool, reply: Reply,
                      mac: Mac, ip: uint32, until: int)
    requires Inv(cfg, max, p) && Step(limit, cfg, max, p, now, msg, p', reply)
    requires HeldUntil(p, mac, ip, until)
    requires now < until <= now + cfg.leaseTime < TWO_32 && msg != Decline(mac)
    ensures HeldUntil(p', mac, ip, until)
    ensures reply == Ack(ip) || reply == Offer(ip) ==> msg.mac == mac
  {
    var leases := StepLeases(limit, cfg, max, p, now, msg, p', reply);
    PreparedInv(limit, cfg, max, p, now, msg, leases);
    ReactKeepsHeld(cfg, max, p.(leases := leases), now, msg, mac, ip, until);
  }

  lemma AckStartsHeld(limit: nat, cfg: Config, max: nat, p: Pool, now: uint32, mac: Mac, ip: uint32, p': Pool)
    requires Step(limit, cfg, max, p, now, Request(mac, Some(ip)), p', Ack(ip))
    requires now + cfg.leaseTime < TWO_32
    ensures HeldUntil(p', mac, ip, now + cfg.leaseTime)
  {
    var leases := StepLeases(limit, cfg, max, p, now, Request(mac, Some(ip)), p', Ack(ip));
  }

  /** Clock readings never go back and lease ends fit 32 bits. */
  ghost predicate SaneClock(cfg: Config, log: seq<Handled>) {
    && (forall i, j | 0 <= i < j < |log| :: log[i].now <= log[j].now)
    && (forall i | 0 <= i < |log| :: log[i].now + cfg.leaseTime < TWO_32)
  }

  lemma HeldAfter(limit: nat, cfg: Config, max: nat, states: seq<Pool>, log: seq<Handled>,
                  k: nat, mac: Mac, ip: uint32, until: int)
    requires IsRun(limit, cfg, max, states, log) && k < |log|
    requires HeldUntil(states[k], mac, ip, until)
    requires log[k].now < until <= log[k].now + cfg.leaseTime < TWO_32 && log[k].msg != Decline(mac)
    ensures HeldUntil(states[k + 1], mac, ip, until)
    ensures log[k].reply == Ack(ip) || log[k].reply == Offer(ip) ==> log[k].msg.mac == mac
  {
    RunInv(limit, cfg, max, states, log, k);
    assert StepAt(limit, cfg, max, states, log, k);
    StepKeepsHeld(limit, cfg, max, states[k], log[k].now, log[k].msg, states[k + 1], log[k].reply, mac, ip, until);
  }

  lemma {:induction false} HeldThroughout(limit: nat, cfg: Config, max: nat, states: seq<Pool>, log: seq<Handled>,
                                          i: nat, j: nat, mac: Mac, ip: uint32)
    requires IsRun(limit, cfg, max, states, log) && SaneClock(cfg, log)
    requires i < j < |log| && log[i].msg == Request(mac, Some(ip)) && log[i].reply == Ack(ip)
    requires log[j].now < log[i].now + cfg.leaseTime
    requires forall k | i < k < j :: log[k].msg != Decline(mac)
    ensures HeldUntil(states[j], mac, ip, log[i].now + cfg.leaseTime)
    decreases j
  {
    if j == i + 1 {
      assert StepAt(limit, cfg, max, states, log, i);
      AckStartsHeld(limit, cfg, max, states[i], log[i].now, mac, ip, states[j]);
    } else {
      HeldThroughout(limit, cfg, max, states, log, i, j - 1, mac, ip);
      HeldAfter(limit, cfg, max, states, log, j - 1, mac, ip, log[i].now + cfg.leaseTime);
    }
  }

  /** Leases exclude each other over whole runs: once `ip` was acknowledged to
      `mac`, nobody else is acknowledged or even offered `ip` before the lease has
      run out, unless `mac` declines it. */
  lemma LeaseIsExclusive(limit: nat, cfg: Config, max: nat, states: seq<Pool>, log: seq<Handled>,
                         i: nat, j: nat, mac: Mac, ip: uint32)
    requires IsRun(limit, cfg, max, states, log) && SaneClock(cfg, log)
    requires i < j < |log| && log[i].msg == Request(mac, Some(ip)) && log[i].reply == Ack(ip)
    requires log[j].reply == Ack(ip) || log[j].reply == Offer(ip)
    requires log[j].msg.mac != mac
    ensures log[j].now >= log[i].now + cfg.leaseTime || exists k :: i < k < j && log[k].msg == Decline(mac)
  {
    if log[j].now < log[i].now + cfg.leaseTime && forall k | i < k < j :: log[k].msg != Decline(mac) {
      HeldThroughout(limit, cfg, max, states, log, i, j, mac, ip);
      HeldAfter(limit, cfg, max, states, log, j, mac, ip, log[i].now + cfg.leaseTime);
      assert false;
    }
  }

  /** Over whole runs, a client that was acknowledged `ip` and asks again before its lease
      is over, without having declined it, is offered `ip` again; leases and rotation then
      change only by the cleanup of a full table. */
  lemma KnownClientIsOfferedAgain(limit: nat, cfg: Config, max: nat, states: seq<Pool>, log: seq<Handled>,
                                  i: nat, j: nat, mac: Mac, ip: uint32)
    requires IsRun(limit, cfg, max, states, log) && SaneClock(cfg, log)
    requires i < j < |log| && log[i].msg == Request(mac, Some(ip)) && log[i].reply == Ack(ip)
    requires log[j].msg == Discover(mac) && log[j].now < log[i].now + cfg.leaseTime
    requires forall k | i < k < j :: log[k].msg != Decline(mac)
    ensures log[j].reply == if ip != 0 then Offer(ip) else NoReply
    ensures states[j + 1].nextIp == states[j].nextIp
    ensures Tidied(limit, max, states[j].leases, log[j].now, states[j + 1].leases)
  {
    HeldThroughout(limit, cfg, max, states, log, i, j, mac, ip);
    assert StepAt(limit, cfg, max, states, log, j);
    KnownClientIsOffered(limit, cfg, max, states[j], log[j].now, mac, states[j + 1], log[j].reply);
  }

  /** And one that asks to renew is acknowledged, for one more lease time. */
  lemma RenewalIsGranted(limit: nat, cfg: Config, max: nat, states: seq<Pool>, log: seq<Handled>,
                         i: nat, j: nat, mac: Mac, ip: uint32)
    requires IsRun(limit, cfg, max, states, log) && SaneClock(cfg, log)
    requires i < j < |log| && log[i].msg == Request(mac, Some(ip)) && log[i].reply == Ack(ip)
    requires log[j].msg == Request(mac, Some(ip)) && log[j].now < log[i].now + cfg.leaseTime
    requires forall k | i < k < j :: log[k].msg != Decline(mac)
    ensures log[j].reply == Ack(ip)
    ensures mac in states[j + 1].leases
            && states[j + 1].leases[mac] == Lease(mac, ip, log[j].now + cfg.leaseTime)
  {
    HeldThroughout(limit, cfg, max, states, log, i, j, mac, ip);
    assert StepAt(limit, cfg, max, states, log, i) && StepAt(limit, cfg, max, states, log, j);
    var l0 := RequestVerdict(limit, cfg, max, states[i], log[i].now, mac, ip, states[i + 1], log[i].reply);
    var leases := RequestVerdict(limit, cfg, max, states[j], log[j].now, mac, ip, states[j + 1], log[j].reply);
  }
}
