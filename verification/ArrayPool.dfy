/** The ARRAY lease pool: a flat table of lease slots scanned linearly. */
module ArrayPools {
  import opened Wrappers
  import opened LeaseMap

  datatype Slot = Slot(mac: Mac, ip: uint32, expire: uint32, inUse: bool) {
    function AsLease(): Lease {
      Lease(mac, ip, expire)
    }
  }

  /** What a linear scan looks for. */
  datatype Sought = OfMac(mac: Mac) | AtIp(ip: uint32) | Free {
    predicate Matches(x: Slot) {
      match this
      case OfMac(mac) => x.inUse && x.mac == mac
      case AtIp(ip) => x.inUse && x.ip == ip
      case Free => !x.inUse
    }
  }

  /** Index of the first matching slot from `i` on, or the number of slots. */
  function First(s: seq<Slot>, q: Sought, i: nat): (r: nat)
    requires i <= |s|
    ensures i <= r <= |s|
    ensures r < |s| ==> q.Matches(s[r])
    ensures forall j | i <= j < r :: !q.Matches(s[j])
    decreases |s| - i
  {
    if i == |s| || q.Matches(s[i]) then i else First(s, q, i + 1)
  }

  /** The verdict and slots of an allocation that always scans the whole table. */
  function FullScan(s: seq<Slot>, mac: Mac, ip: uint32, expire: uint32): (seq<Slot>, bool) {
    var a := First(s, OfMac(mac), 0);
    var free := First(s, Free, 0);
    if a < |s| then
      if s[a].ip != ip then (s, false) else (s[a := s[a].(expire := expire)], true)
    else if First(s, AtIp(ip), 0) < |s| || free == |s| then (s, false)
    else (s[free := Slot(mac, ip, expire, true)], true)
  }

  // ----- Slots and the lease map -------------------------------------------

  ghost predicate HasMac(s: seq<Slot>, i: int, mac: Mac) {
    0 <= i < |s| && s[i].inUse && s[i].mac == mac
  }

  ghost predicate DistinctMacs(s: seq<Slot>) {
    forall i, j, k | HasMac(s, i, k) && HasMac(s, j, k) :: i == j
  }

  /** The slots in use are exactly the leases of `m`, one slot per client. */
  ghost predicate Represents(s: seq<Slot>, m: Leases) {
    && (forall i, k | HasMac(s, i, k) :: k in m && m[k] == s[i].AsLease())
    && (forall k | k in m :: exists i :: HasMac(s, i, k))
    && DistinctMacs(s)
  }

  /** The pool invariant: one slot per lease, addresses unique, and the count is
      the number of slots in use. */
  ghost predicate Coherent(s: seq<Slot>, m: Leases, count: nat) {
    Represents(s, m) && UniqueIps(m) && count == |m| == CountUsed(s)
  }

  function CountUsed(s: seq<Slot>): (n: nat)
    ensures n <= |s|
    ensures n == |s| <==> forall i | 0 <= i < |s| :: s[i].inUse
  {
    if s == [] then 0
    else
      var last := |s| - 1;
      assert (forall i | 0 <= i < |s| :: s[i].inUse)
             <==> s[last].inUse && forall i | 0 <= i < last :: s[..last][i].inUse;
      CountUsed(s[..last]) + if s[last].inUse then 1 else 0
  }

  ghost function MacsOf(s: seq<Slot>): set<Mac> {
    set i | 0 <= i < |s| && s[i].inUse :: s[i].mac
  }

  lemma MacsOfLast(s: seq<Slot>)
    requires s != []
    ensures var last := |s| - 1; MacsOf(s) == MacsOf(s[..last]) + if s[last].inUse then {s[last].mac} else {}
  {
    var last := |s| - 1;
    forall m | m in MacsOf(s[..last]) ensures m in MacsOf(s) {
      var i :| 0 <= i < last && s[..last][i].inUse && s[..last][i].mac == m;
      assert s[i].mac == m;
    }
    forall m | m in MacsOf(s) ensures m in MacsOf(s[..last]) || (s[last].inUse && m == s[last].mac) {
      var i :| 0 <= i < |s| && s[i].inUse && s[i].mac == m;
      if i < last {
        assert s[..last][i].mac == m;
      }
    }
  }

  lemma {:induction false} MacsOfCount(s: seq<Slot>)
    requires DistinctMacs(s)
    ensures |MacsOf(s)| == CountUsed(s)
  {
    if s != [] {
      var last := |s| - 1;
      var front := s[..last];
      assert forall i, k | HasMac(front, i, k) :: HasMac(s, i, k);
      MacsOfCount(front);
      MacsOfLast(s);
      if s[last].inUse {
        assert HasMac(s, last, s[last].mac);
        forall i | 0 <= i < last && front[i].inUse ensures front[i].mac != s[last].mac {
          assert HasMac(s, i, s[i].mac);
        }
      }
    }
  }

  /** The number of leases is the number of slots in use. */
  lemma RepresentsCount(s: seq<Slot>, m: Leases)
    requires Represents(s, m)
    ensures |m| == CountUsed(s)
  {
    MacsOfCount(s);
    forall k | k in m ensures k in MacsOf(s) {
      var i :| HasMac(s, i, k);
      assert s[i].mac == k;
    }
    forall k | k in MacsOf(s) ensures k in m {
      var i :| 0 <= i < |s| && s[i].inUse && s[i].mac == k;
      assert HasMac(s, i, k);
    }
    assert MacsOf(s) == m.Keys;
    assert |m| == |m.Keys|;
  }

  lemma FirstMacIffIn(s: seq<Slot>, m: Leases, mac: Mac)
    requires Represents(s, m)
    ensures var a := First(s, OfMac(mac), 0);
            (a < |s| <==> mac in m) && (a < |s| ==> m[mac] == s[a].AsLease())
  {
    var a := First(s, OfMac(mac), 0);
    if a < |s| {
      assert HasMac(s, a, mac);
    }
    if mac in m {
      var i :| HasMac(s, i, mac);
      assert OfMac(mac).Matches(s[i]);
    }
  }

  lemma FirstIpIffIn(s: seq<Slot>, m: Leases, ip: uint32)
    requires Represents(s, m)
    ensures First(s, AtIp(ip), 0) < |s| <==> ip in IpsOf(m)
  {
    var b := First(s, AtIp(ip), 0);
    if b < |s| {
      assert HasMac(s, b, s[b].mac);
      assert m[s[b].mac].ip == ip;
    }
    if ip in IpsOf(m) {
      var k :| k in m && m[k].ip == ip;
      var i :| HasMac(s, i, k);
      assert AtIp(ip).Matches(s[i]);
    }
  }

  lemma FillRepresents(s: seq<Slot>, m: Leases, i: nat, x: Slot)
    requires Represents(s, m) && i < |s| && x.inUse
    requires if s[i].inUse then s[i].mac == x.mac else x.mac !in m
    ensures Represents(s[i := x], m[x.mac := x.AsLease()])
  {
    var t, m' := s[i := x], m[x.mac := x.AsLease()];
    assert s[i].inUse ==> HasMac(s, i, x.mac);
    assert forall j, k | HasMac(t, j, k) && j != i :: HasMac(s, j, k);
    forall k | k in m' ensures exists j :: HasMac(t, j, k) {
      if k == x.mac {
        assert HasMac(t, i, k);
      } else {
        var j :| HasMac(s, j, k);
        assert HasMac(t, j, k);
      }
    }
  }

  lemma ReleaseRepresents(s: seq<Slot>, m: Leases, i: nat)
    requires Represents(s, m) && i < |s| && s[i].inUse
    ensures Represents(s[i := s[i].(inUse := false)], m - {s[i].mac})
    ensures |m - {s[i].mac}| == |m| - 1
  {
    var t, m' := s[i := s[i].(inUse := false)], m - {s[i].mac};
    assert HasMac(s, i, s[i].mac);
    assert forall j, k | HasMac(t, j, k) :: HasMac(s, j, k) && j != i;
    forall k | k in m' ensures exists j :: HasMac(t, j, k) {
      var j :| HasMac(s, j, k);
      assert HasMac(t, j, k);
    }
    MinusSize(m, {s[i].mac});
  }

  lemma AllocateKeepsUnique(max: nat, m: Leases, mac: Mac, ip: uint32, expire: uint32)
    requires UniqueIps(m)
    ensures UniqueIps(Allocate(max, m, mac, ip, expire))
  {
    forall k | k in m ensures m[k].ip in IpsOf(m) {}
  }

  /** A full scan on the slots is an allocation on the lease map. */
  lemma FullScanAllocates(s: seq<Slot>, m: Leases, mac: Mac, ip: uint32, expire: uint32)
    requires Represents(s, m) && UniqueIps(m)
    ensures var (s', ok) := FullScan(s, mac, ip, expire);
            var m' := Allocate(|s|, m, mac, ip, expire);
            && ok == CanAllocate(|s|, m, mac, ip)
            && Coherent(s', m', |m| + if ok && First(s, OfMac(mac), 0) == |s| then 1 else 0)
  {
    FirstMacIffIn(s, m, mac);
    FirstIpIffIn(s, m, ip);
    RepresentsCount(s, m);
    UpdateSize(m, mac, Lease(mac, ip, expire));
    AllocateKeepsUnique(|s|, m, mac, ip, expire);
    var a, free := First(s, OfMac(mac), 0), First(s, Free, 0);
    if a < |s| {
      if s[a].ip == ip {
        FillRepresents(s, m, a, s[a].(expire := expire));
      }
    } else if First(s, AtIp(ip), 0) == |s| && free < |s| {
      assert !s[free].inUse;
      FillRepresents(s, m, free, Slot(mac, ip, expire, true));
    }
    RepresentsCount(FullScan(s, mac, ip, expire).0, Allocate(|s|, m, mac, ip, expire));
  }

  ghost predicate PartlyCleaned(before: Leases, after: Leases, now: uint32) {
    && (forall k | k in after :: k in before && after[k] == before[k])
    && (forall k | k in before && k !in after :: before[k].expire <= now)
  }

  /** None of the first `n` slots holds an expired lease. */
  ghost predicate AllLive(s: seq<Slot>, n: nat, now: uint32)
    requires n <= |s|
  {
    forall j | 0 <= j < n && s[j].inUse :: s[j].expire > now
  }

  lemma CleanedUp(s: seq<Slot>, before: Leases, after: Leases, now: uint32)
    requires Represents(s, after) && PartlyCleaned(before, after, now)
    requires AllLive(s, |s|, now)
    ensures after == CleanAll(before, now)
  {
    forall k | k in after ensures after[k].expire > now {
      var i :| HasMac(s, i, k);
    }
  }

  // ----- The early exit of the allocation scan -----------------------------

  ghost predicate FoundAt(s: seq<Slot>, n: nat, q: Sought, r: Option<nat>)
    requires n <= |s|
  {
    match r
    case None => forall j | 0 <= j < n :: !q.Matches(s[j])
    case Some(a) => a < n && q.Matches(s[a])
  }

  /** What the scan knows after `n` slots: some match per query, and for free
      slots the first one. */
  ghost predicate Scanned(s: seq<Slot>, n: nat, mac: Mac, ip: uint32,
                          macMatch: Option<nat>, ipMatch: Option<nat>, freeSlot: Option<nat>)
    requires n <= |s|
  {
    && FoundAt(s, n, OfMac(mac), macMatch)
    && FoundAt(s, n, AtIp(ip), ipMatch)
    && FoundAt(s, n, Free, freeSlot)
    && (freeSlot.Some? ==> forall j | 0 <= j < freeSlot.value :: !Free.Matches(s[j]))
  }

  /** The reported matches lead to the verdict of a complete scan. */
  ghost predicate Decisive(s: seq<Slot>, mac: Mac, ip: uint32,
                           macMatch: Option<nat>, ipMatch: Option<nat>, freeSlot: Option<nat>)
  {
    var a := First(s, OfMac(mac), 0);
    && (macMatch.Some? ==> a < |s| && macMatch.value == a)
    && (macMatch.None? && a < |s| ==> ipMatch.Some? && s[a].ip != ip)
    && (macMatch.None? && a == |s| ==> (ipMatch.Some? <==> First(s, AtIp(ip), 0) < |s|))
    && (macMatch.None? && ipMatch.None? ==>
          freeSlot == if First(s, Free, 0) < |s| then Some(First(s, Free, 0)) else None)
  }

  /** Because addresses are unique, matches found before an early exit decide the
      allocation as those of a complete scan. */
  lemma EarlyExitIsSound(s: seq<Slot>, m: Leases, mac: Mac, ip: uint32,
                         macMatch: Option<nat>, ipMatch: Option<nat>, freeSlot: Option<nat>)
    requires Represents(s, m) && UniqueIps(m)
    requires exists n :: 0 <= n <= |s| && Scanned(s, n, mac, ip, macMatch, ipMatch, freeSlot)
               && (n == |s| || ((macMatch.Some? || ipMatch.Some?) && freeSlot.Some?))
    ensures Decisive(s, mac, ip, macMatch, ipMatch, freeSlot)
  {
    var a := First(s, OfMac(mac), 0);
    if macMatch.Some? {
      assert HasMac(s, a, mac) && HasMac(s, macMatch.value, mac);
    } else if ipMatch.Some? && a < |s| {
      var b := ipMatch.value;
      assert HasMac(s, a, mac) && HasMac(s, b, s[b].mac);
      assert s[b].mac != mac;
    }
  }

  // ----- The pool ----------------------------------------------------------

  class ArrayPool {
    const slots: array<Slot>
    var leaseCount: nat
    var nextIp: uint32
    ghost var leases: Leases

    ghost predicate Valid()
      reads this`leaseCount, this`leases, slots
    {
      && leaseCount == |leases|
      && forall u {:trigger Opened(this, u)} | Opened(this, u) :: Coherent(slots[..], leases, leaseCount)
    }

    lemma Open()
      requires Valid()
      ensures Coherent(slots[..], leases, leaseCount)
    {
      assert Opened(this, 0);
    }

    ghost function State(): Pool
      reads this
    {
      Pool(leases, nextIp)
    }

    constructor (start: uint32, table: array<Slot>)
      modifies table
      ensures Valid() && slots == table && State() == Pool(map[], start)
    {
      slots := table;
      leaseCount, nextIp, leases := 0, start, map[];
      new;
      for i := 0 to slots.Length
        invariant forall j | 0 <= j < i :: !slots[j].inUse
        invariant leaseCount == 0 && nextIp == start && leases == map[]
      {
        slots[i] := slots[i].(inUse := false);
      }
      RepresentsCount(slots[..], leases);
    }

    /** One linear scan. */
    method Scan(q: Sought) returns (i: nat)
      ensures i == First(slots[..], q, 0)
    {
      i := 0;
      while i < slots.Length && !q.Matches(slots[i])
        invariant i <= slots.Length && First(slots[..], q, 0) == First(slots[..], q, i)
      {
        i := i + 1;
      }
    }

    method Release(i: nat)
      requires Valid() && i < slots.Length && slots[i].inUse
      modifies this, slots
      ensures Valid() && slots[..] == old(slots[..])[i := old(slots[i]).(inUse := false)]
      ensures leases == old(leases) - {old(slots[i]).mac} && nextIp == old(nextIp)
    {
      Open();
      ReleaseRepresents(slots[..], leases, i);
      ghost var s := slots[..][i := slots[i].(inUse := false)];
      leases := leases - {slots[i].mac};
      leaseCount := leaseCount - 1;
      slots[i] := slots[i].(inUse := false);
      assert slots[..] == s;
      RepresentsCount(slots[..], leases);
    }

    method Cleanup(now: uint32)
      requires Valid()
      modifies this, slots
      ensures Valid()
      ensures leases == CleanAll(old(leases), now) && nextIp == old(nextIp)
    {
      ghost var before := leases;
      for i := 0 to slots.Length
        invariant Valid() && nextIp == old(nextIp)
        invariant PartlyCleaned(before, leases, now) && AllLive(slots[..], i, now)
      {
        ReleaseIfExpired(i, now, before);
      }
      Open();
      CleanedUp(slots[..], before, leases, now);
    }

    method ReleaseIfExpired(i: nat, now: uint32, ghost before: Leases)
      requires Valid() && i < slots.Length
      requires PartlyCleaned(before, leases, now) && AllLive(slots[..], i, now)
      modifies this, slots
      ensures Valid() && nextIp == old(nextIp)
      ensures PartlyCleaned(before, leases, now) && AllLive(slots[..], i + 1, now)
    {
      if slots[i].inUse && slots[i].expire <= now {
        Open();
        assert HasMac(slots[..], i, slots[i].mac);
        Release(i);
      }
    }

    method FindAvailableIp(cfg: Config, mac: Mac, now: uint32) returns (ip: uint32)
      requires Valid()
      modifies this, slots
      ensures Valid()
      ensures var cleaned := CleanedWhenFull(slots.Length, old(leases), now);
              (State(), ip) == FindAvailable(cfg, slots.Length, Pool(cleaned, old(nextIp)), mac)
    {
      if leaseCount >= slots.Length {
        Cleanup(now);
      }
      var a := Scan(OfMac(mac));
      Open();
      FirstMacIffIn(slots[..], leases, mac);
      if a < slots.Length {
        return slots[a].ip;
      }
      if leaseCount >= slots.Length {
        return 0;
      }
      ip := Rotate(cfg);
    }

    /** The loop over candidate addresses. */
    method Rotate(cfg: Config) returns (ip: uint32)
      requires Valid()
      modifies this`nextIp
      ensures Valid()
      ensures (ip, nextIp) == Search(cfg, IpsOf(leases), old(nextIp), cfg.RangeSize())
    {
      var range := cfg.RangeSize();
      for count := 0 to range
        invariant Valid()
        invariant Search(cfg, IpsOf(leases), old(nextIp), range) == Search(cfg, IpsOf(leases), nextIp, range - count)
      {
        ip := nextIp;
        nextIp := NextIp(cfg, ip);
        var taken := IsTaken(ip);
        if !taken {
          return;
        }
      }
      ip := 0;
    }

    method IsTaken(ip: uint32) returns (r: bool)
      requires Valid()
      ensures r <==> ip in IpsOf(leases)
    {
      var b := Scan(AtIp(ip));
      Open();
      FirstIpIffIn(slots[..], leases, ip);
      r := b < slots.Length;
    }

    method AllocLease(ip: uint32, mac: Mac, leaseTime: uint32, now: uint32) returns (ok: bool)
      requires Valid()
      modifies this, slots
      ensures Valid()
      ensures var cleaned := CleanedWhenFull(slots.Length, old(leases), now);
              && ok == CanAllocate(slots.Length, cleaned, mac, ip)
              && leases == Allocate(slots.Length, cleaned, mac, ip, Wrap(now + leaseTime)) && nextIp == old(nextIp)
    {
      if leaseCount >= slots.Length {
        Cleanup(now);
      }
      ok := ScanAndAllocate(ip, mac, Wrap(now + leaseTime));
    }

    /** The allocation scan leaves its loop early, yet decides and changes what a
        scan of the whole table would. */
    method ScanAndAllocate(ip: uint32, mac: Mac, expire: uint32) returns (ok: bool)
      requires Valid()
      modifies this, slots
      ensures Valid()
      ensures (slots[..], ok) == FullScan(old(slots[..]), mac, ip, expire)
      ensures ok == CanAllocate(slots.Length, old(leases), mac, ip)
      ensures leases == Allocate(slots.Length, old(leases), mac, ip, expire) && nextIp == old(nextIp)
    {
      var macMatch, ipMatch, freeSlot := Decide(ip, mac);
      ghost var s := slots[..];
      Open();
      FullScanAllocates(s, leases, mac, ip, expire);
      leases := Allocate(|s|, leases, mac, ip, expire);
      ok := WriteVerdict(ip, mac, expire, macMatch, ipMatch, freeSlot);
    }

    method Decide(ip: uint32, mac: Mac) returns (macMatch: Option<nat>, ipMatch: Option<nat>, freeSlot: Option<nat>)
      requires Valid()
      ensures Decisive(slots[..], mac, ip, macMatch, ipMatch, freeSlot)
    {
      macMatch, ipMatch, freeSlot := ScanEarly(ip, mac);
      Open();
      EarlyExitIsSound(slots[..], leases, mac, ip, macMatch, ipMatch, freeSlot);
    }

    method WriteVerdict(ip: uint32, mac: Mac, expire: uint32,
                        macMatch: Option<nat>, ipMatch: Option<nat>, freeSlot: Option<nat>) returns (ok: bool)
      requires Decisive(slots[..], mac, ip, macMatch, ipMatch, freeSlot)
      modifies slots, this`leaseCount
      ensures (slots[..], ok) == FullScan(old(slots[..]), mac, ip, expire)
      ensures leaseCount == old(leaseCount)
                            + if ok && First(old(slots[..]), OfMac(mac), 0) == slots.Length then 1 else 0
    {
      if macMatch.Some? {
        ok := slots[macMatch.value].ip == ip;
        if ok {
          slots[macMatch.value] := slots[macMatch.value].(expire := expire);
        }
      } else if ipMatch.Some? || freeSlot.None? {
        ok := false;
      } else {
        ok := true;
        slots[freeSlot.value] := Slot(mac, ip, expire, true);
        leaseCount := leaseCount + 1;
      }
    }

    /** The scan itself, with its early exit. */
    method ScanEarly(ip: uint32, mac: Mac)
      returns (macMatch: Option<nat>, ipMatch: Option<nat>, freeSlot: Option<nat>)
      ensures exists n :: 0 <= n <= slots.Length && Scanned(slots[..], n, mac, ip, macMatch, ipMatch, freeSlot)
                && (n == slots.Length || ((macMatch.Some? || ipMatch.Some?) && freeSlot.Some?))
    {
      macMatch, ipMatch, freeSlot := None, None, None;
      var i := 0;
      while i < slots.Length
        invariant i <= slots.Length && Scanned(slots[..], i, mac, ip, macMatch, ipMatch, freeSlot)
      {
        if !slots[i].inUse {
          if freeSlot.None? {
            freeSlot := Some(i);
          }
          i := i + 1;
          continue;
        }
        if slots[i].mac == mac {
          macMatch := Some(i);
        }
        if slots[i].ip == ip {
          ipMatch := Some(i);
        }
        i := i + 1;
        assert Scanned(slots[..], i, mac, ip, macMatch, ipMatch, freeSlot);
        if (macMatch.Some? || ipMatch.Some?) && freeSlot.Some? {
          break;
        }
      }
    }

    method DeclineLease(mac: Mac)
      requires Valid()
      modifies this, slots
      ensures Valid()
      ensures leases == old(leases) - {mac} && nextIp == old(nextIp)
    {
      var a := Scan(OfMac(mac));
      Open();
      FirstMacIffIn(slots[..], leases, mac);
      if a < slots.Length {
        Release(a);
      }
    }
  }
}
