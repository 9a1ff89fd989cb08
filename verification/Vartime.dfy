/** The BITMAP_VARTIME backend: one range of addresses that lives for one epoch;
    all leases of an epoch end together. */
module Vartime {
  import opened Wrappers
  import opened Bitmap

  datatype Params = Params(poolStart: uint32, rangeSize: uint32, leaseTime: uint32, poolEnd: uint32) {
    /** The address check, whose upper bound wraps. */
    predicate InRange(ip: uint32) {
      poolStart <= ip < Wrap(poolStart + rangeSize)
    }
  }

  datatype State = State(counter: nat, range: RangeState)

  function Empty(): State {
    State(0, RangeState({}, 0))
  }

  /** A new epoch starts when the old one is over. */
  function Renewed(s: State, now: uint32): State {
    if 0 < s.range.expire <= now then Empty() else s
  }

  /** A DISCOVER: the new state and the offered address, 0 for none. */
  function Peek(ps: Params, s: State, now: uint32): (r: (State, uint32)) {
    var s1 := Renewed(s, now);
    if s1.range.expire > 0 && s1.counter >= ps.rangeSize then (s1, 0)
    else
      var s2 := if s1.range.expire == 0 then s1.(range := s1.range.(expire := Wrap(now + ps.leaseTime))) else s1;
      var free := NextFree(s2.range.used, s2.counter, ps.rangeSize);
      if free < ps.rangeSize then (s2.(counter := free + 1), Wrap(ps.poolStart + free))
      else (s2.(counter := free), 0)
  }

  /** A REQUEST for `ip`: the new state and whether it is acknowledged. */
  function Commit(ps: Params, s: State, ip: uint32): (r: (State, bool)) {
    if !ps.InRange(ip) || ip - ps.poolStart in s.range.used then (s, false)
    else (s.(range := s.range.(used := s.range.used + {ip - ps.poolStart})), true)
  }

  /** The duration announced with an acknowledgement. */
  function AckedTime(s: State, now: uint32): uint32 {
    Wrap(s.range.expire - now)
  }

  class VartimePool {
    const params: Params
    const range: Range
    var counter: nat

    ghost predicate Valid()
      reads this, range, range.ips
    {
      params.rangeSize <= 32 * range.ips.Length
    }

    ghost function View(): State
      reads this, range, range.ips
    {
      State(counter, range.View())
    }

    constructor (params: Params, range: Range)
      requires params.rangeSize <= 32 * range.ips.Length
      modifies range, range.ips
      ensures Valid() && this.params == params && this.range == range && View() == Empty()
    {
      this.params, this.range, counter := params, range, 0;
      new;
      range.Recycle();
    }

    method Recycle()
      requires Valid()
      modifies this, range, range.ips
      ensures Valid() && View() == Empty()
    {
      range.Recycle();
      counter := 0;
    }

    method PeekIp(now: uint32) returns (ip: uint32)
      requires Valid()
      modifies this, range, range.ips
      ensures Valid() && (View(), ip) == Peek(params, old(View()), now)
    {
      if range.expire > 0 && range.expire <= now {
        Recycle();
      }
      if range.expire > 0 && counter >= params.rangeSize {
        return 0;
      }
      if range.expire == 0 {
        range.expire := Wrap(now + params.leaseTime);
      }
      counter, ip := ScanSlots(range.ips, params.poolStart, counter, params.rangeSize);
    }

    method CommitIp(ip: uint32) returns (ok: bool)
      requires Valid()
      modifies range.ips
      ensures Valid() && (View(), ok) == Commit(params, old(View()), ip)
    {
      if ip < params.poolStart || ip >= Wrap(params.poolStart + params.rangeSize) {
        return false;
      }
      var bit := ip - params.poolStart;
      var taken := SlotUsed(range.ips, bit, params.rangeSize);
      if taken {
        return false;
      }
      SetSlot(range.ips, bit);
      return true;
    }
  }

  // ----- The server --------------------------------------------------------

  datatype Request = Discover | RequestFor(ip: uint32)

  /** A handled message; `leaseTime` is the lease time the answer announces. */
  datatype Event =
    | Discovered(now: uint32, offered: uint32, leaseTime: uint32)
    | Acked(now: uint32, ip: uint32, leaseTime: uint32)
    | Nacked(now: uint32, ip: uint32)

  /** The pool, and the lease time the server would announce with an OFFER. */
  datatype Server = Server(pool: State, announced: uint32)

  /** One message as the server handles it: a request outside the configured pool is
      refused; an acknowledgement carries the rest of the epoch as lease time, and
      overwrites the configured lease time with it. */
  ghost predicate Step(ps: Params, s: Server, e: Event, s': Server) {
    match e
    case Discovered(now, ip, t) => Peek(ps, s.pool, now) == (s'.pool, ip) && t == s.announced == s'.announced
    case Acked(now, ip, t) =>
      && ps.poolStart <= ip <= ps.poolEnd && Commit(ps, s.pool, ip) == (s'.pool, true)
      && t == AckedTime(s'.pool, now) == s'.announced
    case Nacked(_, ip) =>
      s' == s && (ps.poolStart <= ip <= ps.poolEnd ==> !Commit(ps, s.pool, ip).1)
  }

  class VartimeServer {
    const pool: VartimePool
    var leaseTime: uint32

    ghost predicate Valid()
      reads pool, pool.range, pool.range.ips
    {
      pool.Valid()
    }

    ghost function View(): Server
      reads this, pool, pool.range, pool.range.ips
    {
      Server(pool.View(), leaseTime)
    }

    constructor (params: Params, range: Range)
      requires params.rangeSize <= 32 * range.ips.Length
      modifies range, range.ips
      ensures Valid() && pool.params == params && View() == Server(Empty(), params.leaseTime)
    {
      pool := new VartimePool(params, range);
      leaseTime := params.leaseTime;
    }

    /** Handles one message. */
    method Process(request: Request, now: uint32) returns (e: Event)
      requires Valid()
      modifies this, pool, pool.range, pool.range.ips
      ensures Valid() && Step(pool.params, old(View()), e, View())
      ensures e.now == now && (request.Discover? <==> e.Discovered?) && (request.RequestFor? ==> e.ip == request.ip)
    {
      match request
      case Discover =>
        var offered := pool.PeekIp(now);
        e := Discovered(now, offered, leaseTime);
      case RequestFor(ip) =>
        e := Nacked(now, ip);
        if pool.params.poolStart <= ip <= pool.params.poolEnd {
          var ok := pool.CommitIp(ip);
          if ok {
            leaseTime := Wrap(pool.range.expire - now);
            e := Acked(now, ip, leaseTime);
          }
        }
    }
  }

  ghost predicate StepAt(ps: Params, states: seq<Server>, log: seq<Event>, i: nat)
    requires i < |log| < |states|
  {
    Step(ps, states[i], log[i], states[i + 1])
  }

  ghost predicate IsRun(ps: Params, states: seq<Server>, log: seq<Event>) {
    && |states| == |log| + 1
    && states[0] == Server(Empty(), ps.leaseTime)
    && forall i | 0 <= i < |log| :: StepAt(ps, states, log, i)
  }

  ghost predicate Monotone(log: seq<Event>) {
    forall i, j | 0 <= i < j < |log| :: log[i].now <= log[j].now
  }

  // ----- Epochs ------------------------------------------------------------

  /** What happened in the current epoch, told from the messages and answers alone: when it
      ends (0: it has not begun), and which slots were offered and acknowledged in it. */
  datatype Ledger = Ledger(end: uint32, offered: set<nat>, acked: set<nat>)

  predicate Over(l: Ledger, now: uint32) {
    l.end != 0 && l.end <= now
  }

  /** A DISCOVER closes an epoch that is over, and opens one if there is none. */
  function AtDiscover(ps: Params, l: Ledger, now: uint32): Ledger {
    var l1 := if Over(l, now) then Ledger(0, {}, {}) else l;
    if l1.end == 0 then l1.(end := Wrap(now + ps.leaseTime)) else l1
  }

  function Record(ps: Params, l: Ledger, e: Event): Ledger {
    match e
    case Discovered(now, ip, _) =>
      var l1 := AtDiscover(ps, l, now);
      if ip < ps.poolStart || ip == 0 then l1 else l1.(offered := l1.offered + {ip - ps.poolStart})
    case Acked(_, ip, _) => if ip < ps.poolStart then l else l.(acked := l.acked + {ip - ps.poolStart})
    case Nacked(_, _) => l
  }

  function LedgerOf(ps: Params, log: seq<Event>, k: nat): Ledger
    requires k <= |log|
  {
    if k == 0 then Ledger(0, {}, {}) else Record(ps, LedgerOf(ps, log, k - 1), log[k - 1])
  }

  /** No slot of the range has address 0, which stands for "none". */
  predicate NoZero(ps: Params) {
    0 < ps.poolStart && ps.poolStart + ps.rangeSize <= TWO_32
  }

  ghost predicate Agrees(ps: Params, s: State, l: Ledger) {
    && s.range == RangeState(l.acked, l.end)
    && (NoZero(ps) ==>
          && (forall slot: nat | slot < s.counter && slot < ps.rangeSize :: slot in l.acked || slot in l.offered)
          && (forall slot | slot in l.offered :: slot < s.counter))
  }

  lemma StepAgrees(ps: Params, s: Server, e: Event, s': Server, l: Ledger)
    requires Step(ps, s, e, s') && Agrees(ps, s.pool, l)
    ensures Agrees(ps, s'.pool, Record(ps, l, e))
  {
  }

  /** In every run the pool knows exactly this. */
  lemma {:induction false} RunAgrees(ps: Params, states: seq<Server>, log: seq<Event>, k: nat)
    requires IsRun(ps, states, log) && k <= |log|
    ensures Agrees(ps, states[k].pool, LedgerOf(ps, log, k))
  {
    if k > 0 {
      RunAgrees(ps, states, log, k - 1);
      assert StepAt(ps, states, log, k - 1);
      StepAgrees(ps, states[k - 1], log[k - 1], states[k], LedgerOf(ps, log, k - 1));
    }
  }

  /** Every end of an epoch was set by a DISCOVER one lease time before, which found no
      epoch or one that was over; and it stayed as it was since. */
  lemma {:induction false} EpochWasOpened(ps: Params, states: seq<Server>, log: seq<Event>, k: nat) returns (f: nat)
    requires IsRun(ps, states, log) && k <= |log| && states[k].pool.range.expire != 0
    ensures f < k && log[f].Discovered? && Wrap(log[f].now + ps.leaseTime) == states[k].pool.range.expire
    ensures states[f].pool.range.expire == 0 || states[f].pool.range.expire <= log[f].now
    ensures forall i | f < i <= k :: states[i].pool.range.expire == states[k].pool.range.expire
    decreases k
  {
    RunAgrees(ps, states, log, k - 1);
    RunAgrees(ps, states, log, k);
    var l := LedgerOf(ps, log, k - 1);
    if log[k - 1].Discovered? && (l.end == 0 || Over(l, log[k - 1].now)) {
      f := k - 1;
    } else {
      f := EpochWasOpened(ps, states, log, k - 1);
    }
  }

  /** An epoch ends with the first DISCOVER at or after its end, whose answer offers the
      first address of the range; until then no slot is freed and the end stays. */
  lemma EpochEndsOnTime(ps: Params, states: seq<Server>, log: seq<Event>, k: nat)
    requires IsRun(ps, states, log) && k < |log| && states[k].pool.range.expire != 0
    ensures var s, s' := states[k].pool.range, states[k + 1].pool.range;
            if log[k].Discovered? && s.expire <= log[k].now then
              && s' == RangeState({}, Wrap(log[k].now + ps.leaseTime))
              && log[k].offered == if ps.rangeSize == 0 then 0 else ps.poolStart
            else s'.expire == s.expire && s.used <= s'.used
  {
    assert StepAt(ps, states, log, k);
  }

  /** Over whole runs, a DISCOVER is answered by the lowest slot that was neither offered nor
      acknowledged in the epoch, and is not answered only when there is none. */
  lemma OfferIsLowestFresh(ps: Params, states: seq<Server>, log: seq<Event>, k: nat)
    requires IsRun(ps, states, log) && NoZero(ps) && k < |log| && log[k].Discovered?
    ensures var l, ip := AtDiscover(ps, LedgerOf(ps, log, k), log[k].now), log[k].offered;
            if ip == 0 then forall slot: nat | slot < ps.rangeSize :: slot in l.acked || slot in l.offered
            else
              && 0 <= ip - ps.poolStart < ps.rangeSize
              && ip - ps.poolStart !in l.acked && ip - ps.poolStart !in l.offered
              && forall slot: nat | slot < ip - ps.poolStart :: slot in l.acked || slot in l.offered
  {
    RunAgrees(ps, states, log, k);
    assert StepAt(ps, states, log, k);
  }

  /** Over whole runs, a REQUEST is acknowledged exactly for an address of the configured pool
      and of the range that was not acknowledged in the epoch, offered or not; the time it
      announces is the rest of the epoch. */
  lemma RequestVerdict(ps: Params, states: seq<Server>, log: seq<Event>, k: nat)
    requires IsRun(ps, states, log) && k < |log| && !log[k].Discovered?
    ensures var l, ip := LedgerOf(ps, log, k), log[k].ip;
            log[k].Acked? <==> ps.poolStart <= ip <= ps.poolEnd && ip < ps.poolStart + ps.rangeSize < TWO_32
                               && ip - ps.poolStart !in l.acked
    ensures log[k].Acked? ==> log[k].leaseTime == Wrap(LedgerOf(ps, log, k).end - log[k].now)
  {
    RunAgrees(ps, states, log, k);
    assert StepAt(ps, states, log, k);
  }

  // ----- Leases of one epoch end together ----------------------------------

  /** An acknowledged lease ends exactly at the epoch's end if and only if the
      request is handled no later than that; otherwise the remaining time wraps. */
  lemma LeaseEndsWithEpochIff(ps: Params, s: Server, e: Event, s': Server)
    requires Step(ps, s, e, s') && e.Acked?
    ensures e.now + e.leaseTime == s.pool.range.expire <==> e.now <= s.pool.range.expire
    ensures e.now > s.pool.range.expire ==> e.now + e.leaseTime == s.pool.range.expire + TWO_32
  {
  }

  /** The slot is taken, and stays so until the epoch that ends at `until`. */
  ghost predicate TakenUntil(s: State, slot: nat, until: uint32) {
    slot in s.range.used && (until == 0 || s.range.expire == until)
  }

  lemma StepKeepsTaken(ps: Params, s: Server, e: Event, s': Server, slot: nat, until: uint32)
    requires Step(ps, s, e, s') && TakenUntil(s.pool, slot, until)
    ensures TakenUntil(s'.pool, slot, until) || until <= e.now
    ensures e.Acked? ==> e.ip != ps.poolStart + slot
  {
  }

  lemma {:induction false} TakenOrOver(ps: Params, states: seq<Server>, log: seq<Event>, i: nat, j: nat,
                                       slot: nat, until: uint32)
    requires IsRun(ps, states, log) && Monotone(log) && i < j < |log|
    requires TakenUntil(states[i + 1].pool, slot, until)
    ensures TakenUntil(states[j].pool, slot, until) || until <= log[j].now
    decreases j
  {
    if i + 1 < j {
      TakenOrOver(ps, states, log, i, j - 1, slot, until);
      assert StepAt(ps, states, log, j - 1);
      if TakenUntil(states[j - 1].pool, slot, until) {
        StepKeepsTaken(ps, states[j - 1], log[j - 1], states[j], slot, until);
      }
    }
  }

  /** Over whole runs, across any number of epochs: two leases of the same address
      do not overlap if and only if the earlier request was handled no later than
      the end of its epoch. */
  lemma LeasesDisjointIff(ps: Params, states: seq<Server>, log: seq<Event>, i: nat, j: nat)
    requires IsRun(ps, states, log) && Monotone(log) && i < j < |log|
    requires log[i].Acked? && log[j].Acked? && log[i].ip == log[j].ip
    ensures log[i].now + log[i].leaseTime <= log[j].now <==> log[i].now <= states[i].pool.range.expire
  {
    assert StepAt(ps, states, log, i) && StepAt(ps, states, log, j);
    var slot, until := log[i].ip - ps.poolStart, states[i].pool.range.expire;
    LeaseEndsWithEpochIff(ps, states[i], log[i], states[i + 1]);
    TakenOrOver(ps, states, log, i, j, slot, until);
  }

  /** Such a late request does occur: it gets a lease of nearly 2^32 seconds, and
      the address is leased again in the next epoch. */
  lemma LateRequestOverlaps(ps: Params) returns (states: seq<Server>, log: seq<Event>)
    requires ps == Params(1, 1, 10, 1)
    ensures IsRun(ps, states, log) && Monotone(log) && |log| == 4
    ensures log[1].Acked? && log[3].Acked? && log[1].ip == log[3].ip
    ensures log[3].now < log[1].now + log[1].leaseTime
  {
    var s1 := State(1, RangeState({}, 11));
    var s2 := Commit(ps, s1, 1).0;
    var s3 := State(1, RangeState({}, 22));
    var s4 := Commit(ps, s3, 1).0;
    var late := TWO_32 - 1;
    assert Wrap(-1) == late;
    states := [Server(Empty(), 10), Server(s1, 10), Server(s2, late), Server(s3, late), Server(s4, 10)];
    log := [Discovered(1, 1, 10), Acked(12, 1, late), Discovered(12, 1, late), Acked(12, 1, 10)];
    assert Step(ps, states[0], log[0], states[1]);
    assert Step(ps, states[1], log[1], states[2]);
    assert Step(ps, states[2], log[2], states[3]);
    assert Step(ps, states[3], log[3], states[4]);
    assert StepAt(ps, states, log, 0) && StepAt(ps, states, log, 1);
    assert StepAt(ps, states, log, 2) && StepAt(ps, states, log, 3);
  }

  // ----- What offers announce ----------------------------------------------

  /** The lease time of the last acknowledgement among the first `k` messages. */
  function LastAnnounced(log: seq<Event>, k: nat, configured: uint32): uint32
    requires k <= |log|
  {
    if k == 0 then configured
    else if log[k - 1].Acked? then log[k - 1].leaseTime
    else LastAnnounced(log, k - 1, configured)
  }

  /** Over whole runs, an OFFER announces the lease time of the last acknowledgement,
      whoever that was for and however long ago; before the first one, the configured. */
  lemma {:induction false} OfferAnnouncesLastAck(ps: Params, states: seq<Server>, log: seq<Event>, k: nat)
    requires IsRun(ps, states, log) && k <= |log|
    ensures states[k].announced == LastAnnounced(log, k, ps.leaseTime)
    ensures k < |log| && log[k].Discovered? ==> log[k].leaseTime == LastAnnounced(log, k, ps.leaseTime)
  {
    if k < |log| {
      assert StepAt(ps, states, log, k);
    }
    if k > 0 {
      OfferAnnouncesLastAck(ps, states, log, k - 1);
      assert StepAt(ps, states, log, k - 1);
    }
  }

  // ----- Offers are honoured -----------------------------------------------

  /** The whole range is addressable, including the address after it, and configured. */
  predicate Reachable(ps: Params) {
    ps.rangeSize == 0 || (ps.poolStart + ps.rangeSize < TWO_32 && ps.poolStart + ps.rangeSize - 1 <= ps.poolEnd)
  }

  /** A REQUEST for `ip` would be acknowledged. */
  predicate Granted(ps: Params, s: State, ip: uint32) {
    ps.poolStart <= ip <= ps.poolEnd && Commit(ps, s, ip).1
  }

  /** A REQUEST directly after the offer, at the same time, is acknowledged. */
  lemma OfferIsHonoured(ps: Params, s: Server, now: uint32)
    requires Reachable(ps) && Peek(ps, s.pool, now).1 != 0
    ensures var (p', ip) := Peek(ps, s.pool, now);
            var s' := s.(pool := p');
            && Granted(ps, p', ip)
            && Step(ps, s', Acked(now, ip, AckedTime(p', now)), Server(Commit(ps, p', ip).0, AckedTime(p', now)))
            && !Step(ps, s', Nacked(now, ip), s')
  {
  }

  /** In every run, every offer would be honoured by the next message. */
  ghost predicate OffersAreHonoured(ps: Params) {
    forall states: seq<Server>, log: seq<Event>, k | IsRun(ps, states, log) && 0 <= k < |log| ::
      log[k].Discovered? && log[k].offered != 0 ==> Granted(ps, states[k + 1].pool, log[k].offered)
  }

  /** A run of `n` DISCOVERs at time 0. */
  lemma {:induction false} DiscoverRun(ps: Params, n: nat) returns (states: seq<Server>, log: seq<Event>)
    requires n <= ps.rangeSize
    ensures IsRun(ps, states, log) && |log| == n
    ensures states[n].pool == State(n, RangeState({}, if n == 0 then 0 else ps.leaseTime))
    ensures states[n].announced == ps.leaseTime
    ensures forall i | 0 <= i < n :: log[i].Discovered? && log[i].offered == Wrap(ps.poolStart + i)
  {
    if n == 0 {
      states, log := [Server(Empty(), ps.leaseTime)], [];
    } else {
      var states0, log0 := DiscoverRun(ps, n - 1);
      var s := states0[n - 1];
      var (p', ip) := Peek(ps, s.pool, 0);
      states, log := states0 + [s.(pool := p')], log0 + [Discovered(0, ip, s.announced)];
      forall i | 0 <= i < n ensures StepAt(ps, states, log, i) {
        if i < n - 1 {
          assert StepAt(ps, states0, log0, i);
        }
      }
    }
  }

  /** Exactly: offers are honoured if and only if the range ends before the last 32-bit
      address and within the configured pool. A range that ends later has an upper bound
      that wraps, and every request is refused. */
  lemma OffersHonouredIff(ps: Params)
    ensures OffersAreHonoured(ps) <==> Reachable(ps)
  {
    if Reachable(ps) {
      forall states: seq<Server>, log: seq<Event>, k
        | IsRun(ps, states, log) && 0 <= k < |log| && log[k].Discovered? && log[k].offered != 0
        ensures Granted(ps, states[k + 1].pool, log[k].offered)
      {
        assert StepAt(ps, states, log, k);
        OfferIsHonoured(ps, states[k], log[k].now);
      }
    } else {
      var last := if ps.poolStart + ps.rangeSize < TWO_32 then ps.rangeSize - 1 else 0;
      var states, log := DiscoverRun(ps, last + 1);
      assert log[last].offered == ps.poolStart + last != 0;
      assert !Granted(ps, states[last + 1].pool, log[last].offered);
    }
  }
}
