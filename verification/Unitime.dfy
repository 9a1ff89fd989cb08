/** The BITMAP_UNITIME backend: several ranges used in rotation; the leases of a
    range are given a common expiry time when its last address is offered. */
module Unitime {
  import opened Wrappers
  import opened Bitmap

  datatype Params = Params(poolStart: uint32, rangeSize: uint32, numRanges: nat, leaseTime: uint32, poolEnd: uint32) {
    /** There is a range, and no address belongs to two. */
    predicate Valid() {
      0 < numRanges && Raw(numRanges) <= poolStart + TWO_32
    }

    /** The first address of range `r`, counted on beyond 32 bits. */
    function Raw(r: nat): (b: nat)
      ensures b >= poolStart
    {
      if r == 0 then poolStart else Raw(r - 1) + rangeSize
    }

    /** The first address of range `r`. */
    function Base(r: nat): uint32 {
      Wrap(Raw(r))
    }

    /** The address check, whose upper bound wraps. */
    predicate InRange(r: nat, ip: uint32) {
      Base(r) <= ip < Wrap(Base(r) + rangeSize)
    }
  }

  /** The first address as the pool computes it. */
  lemma {:induction false} BaseIsProduct(ps: Params, r: nat)
    ensures ps.Raw(r) == ps.poolStart + r * ps.rangeSize
    ensures ps.Base(r) == Wrap(ps.poolStart + r * ps.rangeSize)
  {
    if r > 0 {
      BaseIsProduct(ps, r - 1);
    }
  }

  lemma {:induction false} RangesFollow(ps: Params, r: nat, r': nat)
    ensures r < r' ==> ps.Raw(r) + ps.rangeSize <= ps.Raw(r')
  {
    if r < r' {
      RangesFollow(ps, r, r' - 1);
    }
  }

  /** A range with an address that passes the check does not wrap. */
  lemma InRangeMeans(ps: Params, r: nat, ip: uint32)
    requires ps.InRange(r, ip)
    ensures ps.Base(r) + ps.rangeSize < TWO_32 && ip - ps.Base(r) < ps.rangeSize
    ensures ip == Wrap(ps.Raw(r) + (ip - ps.Base(r)))
  {
    WrapAdd(ps.Raw(r), ip - ps.Base(r));
  }

  lemma FoundInRange(ps: Params, r: nat, slot: nat, ip: uint32)
    requires slot < ps.rangeSize && ip == Wrap(ps.Base(r) + slot)
    ensures ps.InRange(r, ip) ==> ip - ps.Base(r) == slot
  {
  }

  lemma WrapInjective(x: int, y: int)
    requires Wrap(x) == Wrap(y) && x <= y < x + TWO_32
    ensures x == y
  {
  }

  lemma SlotsApart(ps: Params, r: nat, r': nat, ip: uint32)
    requires ps.Valid() && r < r' < ps.numRanges
    ensures !(ps.InRange(r, ip) && ps.InRange(r', ip))
  {
    if ps.InRange(r, ip) && ps.InRange(r', ip) {
      InRangeMeans(ps, r, ip);
      InRangeMeans(ps, r', ip);
      RangesFollow(ps, r, r');
      RangesFollow(ps, r', ps.numRanges);
      WrapInjective(ps.Raw(r) + (ip - ps.Base(r)), ps.Raw(r') + (ip - ps.Base(r')));
      assert false;
    }
  }

  /** An address is accepted in one range at most. */
  lemma SlotIsUnique(ps: Params, r: nat, r': nat, ip: uint32)
    requires ps.Valid() && r < ps.numRanges && r' < ps.numRanges && ps.InRange(r, ip) && ps.InRange(r', ip)
    ensures r == r'
  {
    if r < r' {
      SlotsApart(ps, r, r', ip);
    } else if r' < r {
      SlotsApart(ps, r', r, ip);
    }
  }

  datatype State = State(cur: nat, counter: nat, ranges: seq<RangeState>)

  predicate Shaped(ps: Params, s: State) {
    ps.Valid() && |s.ranges| == ps.numRanges && s.cur < ps.numRanges
  }

  function Recycled(rg: RangeState, now: uint32): RangeState {
    if 0 < rg.expire <= now then RangeState({}, 0) else rg
  }

  function NextRange(ps: Params, s: State): (r: nat)
    requires Shaped(ps, s)
    ensures r < ps.numRanges
  {
    (s.cur + 1) % ps.numRanges
  }

  /** Moves on when the current range is used up and the next one is available. */
  function Advanced(ps: Params, s: State, now: uint32): (r: State)
    requires Shaped(ps, s)
    ensures Shaped(ps, r)
  {
    if s.counter < ps.rangeSize then s
    else
      var next := NextRange(ps, s);
      var ranges := s.ranges[next := Recycled(s.ranges[next], now)];
      if ranges[next].expire == 0 then State(next, 0, ranges) else s.(ranges := ranges)
  }

  predicate Stuck(ps: Params, s: State, now: uint32)
    requires Shaped(ps, s)
  {
    s.counter >= ps.rangeSize && Recycled(s.ranges[NextRange(ps, s)], now).expire != 0
  }

  /** A DISCOVER: the new state and the offered address, 0 for none. */
  function Peek(ps: Params, s: State, now: uint32): (r: (State, uint32))
    requires Shaped(ps, s)
    ensures Shaped(ps, r.0)
  {
    var s1 := Advanced(ps, s, now);
    if Stuck(ps, s, now) then (s1, 0)
    else
      var rg := s1.ranges[s1.cur];
      var free := NextFree(rg.used, s1.counter, ps.rangeSize);
      if free < ps.rangeSize then
        var ip := Wrap(ps.Base(s1.cur) + free);
        if ip == 0 || !ps.InRange(s1.cur, ip) then (s1.(counter := free + 1), 0)
        else
          var fills := rg.expire == 0 && free + 1 >= ps.rangeSize;
          var rg' := if fills then rg.(expire := Wrap(now + ps.leaseTime)) else rg;
          (State(s1.cur, free + 1, s1.ranges[s1.cur := rg']), ip)
      else (s1.(counter := free), 0)
  }

  predicate Available(ps: Params, s: State, ip: uint32)
    requires Shaped(ps, s)
  {
    ps.InRange(s.cur, ip) && ip - ps.Base(s.cur) !in s.ranges[s.cur].used
  }

  /** A REQUEST for `ip`: the new state and whether it is acknowledged. */
  function Commit(ps: Params, s: State, ip: uint32): (r: (State, bool))
    requires Shaped(ps, s)
    ensures Shaped(ps, r.0)
  {
    if !Available(ps, s, ip) then (s, false)
    else
      var rg := s.ranges[s.cur];
      (s.(ranges := s.ranges[s.cur := rg.(used := rg.used + {ip - ps.Base(s.cur)})]), true)
  }

  // ----- Runs --------------------------------------------------------------

  datatype Event =
    | Discovered(now: uint32, offered: uint32)
    | Acked(now: uint32, ip: uint32)
    | Nacked(now: uint32, ip: uint32)

  /** One message as the server handles it. */
  ghost predicate Step(ps: Params, s: State, e: Event, s': State) {
    && Shaped(ps, s)
    && match e
       case Discovered(now, ip) => Peek(ps, s, now) == (s', ip)
       case Acked(_, ip) => ps.poolStart <= ip <= ps.poolEnd && Commit(ps, s, ip) == (s', true)
       case Nacked(_, ip) => s' == s && (ps.poolStart <= ip <= ps.poolEnd ==> !Commit(ps, s, ip).1)
  }

  ghost predicate StepAt(ps: Params, states: seq<State>, log: seq<Event>, i: nat)
    requires i < |log| < |states|
  {
    Step(ps, states[i], log[i], states[i + 1])
  }

  /** Initialisation clears the ranges but leaves the counter as it was. */
  ghost predicate Initial(ps: Params, s: State) {
    Shaped(ps, s) && s.cur == 0 && forall r | 0 <= r < ps.numRanges :: s.ranges[r] == RangeState({}, 0)
  }

  /** A run whose clock never goes back and whose lease ends fit 32 bits. */
  ghost predicate IsRun(ps: Params, states: seq<State>, log: seq<Event>) {
    && |states| == |log| + 1
    && Initial(ps, states[0])
    && (forall i | 0 <= i < |log| :: StepAt(ps, states, log, i))
    && (forall i, j | 0 <= i < j < |log| :: log[i].now <= log[j].now)
    && (forall i | 0 <= i < |log| :: log[i].now + ps.leaseTime < TWO_32)
  }

  lemma {:induction false} RunShaped(ps: Params, states: seq<State>, log: seq<Event>, k: nat)
    requires IsRun(ps, states, log) && k <= |log|
    ensures Shaped(ps, states[k])
  {
    if k > 0 {
      assert StepAt(ps, states, log, k - 1);
    }
  }

  // ----- What a message does -----------------------------------------------

  /** A DISCOVER that finds the current range used up and the next one not expired is not
      answered and changes nothing. */
  lemma StuckDoesNothing(ps: Params, s: State, e: Event, s': State)
    requires Step(ps, s, e, s') && e.Discovered? && s.counter >= ps.rangeSize
    requires s.ranges[(s.cur + 1) % ps.numRanges].expire > e.now
    ensures s' == s && e.offered == 0
  {
  }

  /** The range a DISCOVER works on: the current one, or the next if that is used up. */
  function Target(ps: Params, s: State): (r: nat)
    requires ps.numRanges > 0
  {
    if s.counter >= ps.rangeSize then (s.cur + 1) % ps.numRanges else s.cur
  }

  /** Any other DISCOVER works on one range, which it recycles if it is the next and has
      expired. It looks at the lowest slot not looked at in this turn that is not in use, and
      offers its address if it is one that can be requested; offering the last address of a
      range without expiry time sets it, one lease time from now. */
  lemma DiscoverAnswer(ps: Params, s: State, e: Event, s': State) returns (slot: nat)
    requires Step(ps, s, e, s') && e.Discovered?
    requires s.counter >= ps.rangeSize ==> s.ranges[(s.cur + 1) % ps.numRanges].expire <= e.now
    ensures Shaped(ps, s') && s'.cur == Target(ps, s)
    ensures forall q | 0 <= q < ps.numRanges && q != s'.cur :: s'.ranges[q] == s.ranges[q]
    ensures var turned, rg, rg' := s.counter >= ps.rangeSize, s.ranges[s'.cur], s'.ranges[s'.cur];
            var recycled := turned && rg.expire > 0;
            var ip := Wrap(ps.Base(s'.cur) + slot);
            && rg'.used == (if recycled then {} else rg.used)
            && (turned || s.counter <= slot) && slot <= ps.rangeSize
            && (forall j: nat | (turned || s.counter <= j) && j < slot :: j in rg'.used)
            && (slot < ps.rangeSize ==> slot !in rg'.used && s'.counter == slot + 1)
            && (slot == ps.rangeSize ==> s'.counter == slot)
            && e.offered == (if slot < ps.rangeSize && ps.InRange(s'.cur, ip) then ip else 0)
            && rg'.expire == if e.offered != 0 && slot == ps.rangeSize - 1 && (recycled || rg.expire == 0)
                             then Wrap(e.now + ps.leaseTime) else if recycled then 0 else rg.expire
  {
    var next := NextRange(ps, s);
    var s1 := Advanced(ps, s, e.now);
    slot := NextFree(s1.ranges[s1.cur].used, s1.counter, ps.rangeSize);
  }

  /** A REQUEST is acknowledged exactly for an address of the configured pool and of the
      current range, if that does not wrap, whose slot is not in use; it takes the slot and
      changes nothing else. */
  lemma RequestVerdict(ps: Params, s: State, e: Event, s': State)
    requires Step(ps, s, e, s') && !e.Discovered?
    ensures e.Acked? <==> && ps.poolStart <= e.ip <= ps.poolEnd
                          && ps.Base(s.cur) <= e.ip < ps.Base(s.cur) + ps.rangeSize < TWO_32
                          && e.ip - ps.Base(s.cur) !in s.ranges[s.cur].used
    ensures s'.cur == s.cur && s'.counter == s.counter && |s'.ranges| == ps.numRanges
    ensures forall r | 0 <= r < ps.numRanges ::
              && s'.ranges[r].expire == s.ranges[r].expire
              && s'.ranges[r].used == s.ranges[r].used + if e.Acked? && r == s.cur then {e.ip - ps.Base(r)} else {}
  {
  }

  /** No DISCOVER strictly between found the current range used up. */
  ghost predicate SameTurn(ps: Params, states: seq<State>, log: seq<Event>, i: nat, j: nat)
    requires j < |log| < |states|
  {
    forall m | i < m <= j && log[m].Discovered? :: states[m].counter < ps.rangeSize
  }

  lemma {:induction false} TurnGoesOn(ps: Params, states: seq<State>, log: seq<Event>, i: nat, j: nat)
    requires IsRun(ps, states, log) && i < j < |log| && SameTurn(ps, states, log, i, j)
    ensures states[j].cur == states[i + 1].cur && states[j].counter >= states[i + 1].counter
    decreases j
  {
    if i + 1 < j {
      TurnGoesOn(ps, states, log, i, j - 1);
      assert StepAt(ps, states, log, j - 1);
      if log[j - 1].Discovered? {
        var slot := DiscoverAnswer(ps, states[j - 1], log[j - 1], states[j]);
      }
    }
  }

  /** Over whole runs, the same address is offered again only after a DISCOVER that found its
      range, or a later one, used up. */
  lemma OfferedOncePerTurn(ps: Params, states: seq<State>, log: seq<Event>, i: nat, j: nat)
    requires IsRun(ps, states, log) && i < j < |log| && SameTurn(ps, states, log, i, j)
    requires log[i].Discovered? && log[j].Discovered? && log[j].offered != 0
    ensures log[i].offered != log[j].offered
  {
    assert StepAt(ps, states, log, i) && StepAt(ps, states, log, j);
    TurnGoesOn(ps, states, log, i, j);
    OfferedSlot(ps, states[j], log[j], states[j + 1]);
    if log[i].offered != 0 {
      OfferedSlot(ps, states[i], log[i], states[i + 1]);
    }
  }

  lemma OfferedSlot(ps: Params, s: State, e: Event, s': State)
    requires Step(ps, s, e, s') && e.Discovered? && e.offered != 0
    ensures e.offered == ps.Base(s'.cur) + s'.counter - 1
    ensures s.counter < ps.rangeSize ==> s'.cur == s.cur && s.counter < s'.counter
  {
    var slot := DiscoverAnswer(ps, s, e, s');
    FoundInRange(ps, s'.cur, slot, e.offered);
  }

  // ----- Where expiry times come from --------------------------------------

  /** Event `f` offered the last address of range `r` and so set its expiry time. */
  ghost predicate Filled(ps: Params, log: seq<Event>, f: int, r: nat, expire: int) {
    && 0 <= f < |log| && log[f].Discovered?
    && log[f].offered == ps.Base(r) + ps.rangeSize - 1
    && log[f].now + ps.leaseTime == expire
  }

  /** What one message does to one range: nothing, commit a slot, start its expiry
      time by offering its last address, or recycle it because that time has come. */
  lemma StepOnRange(ps: Params, s: State, e: Event, s': State, r: nat)
    requires Step(ps, s, e, s') && r < ps.numRanges
    ensures |s'.ranges| == ps.numRanges
    ensures var rg, rg' := s.ranges[r], s'.ranges[r];
            || rg' == rg
            || (e.Acked? && rg'.expire == rg.expire && rg.used <= rg'.used)
            || (e.Discovered? && rg.expire == 0 && e.offered == ps.Base(r) + ps.rangeSize - 1
                && rg' == rg.(expire := Wrap(e.now + ps.leaseTime)))
            || (e.Discovered? && 0 < rg.expire <= e.now && rg'.used == {}
                && (rg'.expire == 0
                    || (rg'.expire == Wrap(e.now + ps.leaseTime) && e.offered == ps.Base(r) + ps.rangeSize - 1)))
  {
  }

  /** Every expiry time was set by the offer of the range's last address, one lease
      time before. */
  lemma {:induction false} ExpiryIsFillTime(ps: Params, states: seq<State>, log: seq<Event>, k: nat, r: nat)
    returns (f: nat)
    requires IsRun(ps, states, log) && k <= |log| && r < ps.numRanges
    requires Shaped(ps, states[k]) && states[k].ranges[r].expire > 0
    ensures f < k && Filled(ps, log, f, r, states[k].ranges[r].expire)
    decreases k
  {
    assert StepAt(ps, states, log, k - 1);
    StepOnRange(ps, states[k - 1], log[k - 1], states[k], r);
    if states[k].ranges[r].expire == states[k - 1].ranges[r].expire {
      f := ExpiryIsFillTime(ps, states, log, k - 1, r);
    } else {
      f := k - 1;
    }
  }

  /** A slot is freed only by recycling its range, one lease time or more after the
      offer that filled the range. */
  lemma RecycledAfterFill(ps: Params, states: seq<State>, log: seq<Event>, k: nat, r: nat, slot: nat) returns (f: nat)
    requires IsRun(ps, states, log) && k < |log| && r < ps.numRanges
    requires Shaped(ps, states[k]) && Shaped(ps, states[k + 1])
    requires slot in states[k].ranges[r].used && slot !in states[k + 1].ranges[r].used
    ensures f < k && Filled(ps, log, f, r, states[k].ranges[r].expire)
    ensures log[k].Discovered? && log[f].now + ps.leaseTime <= log[k].now
  {
    assert StepAt(ps, states, log, k);
    StepOnRange(ps, states[k], log[k], states[k + 1], r);
    f := ExpiryIsFillTime(ps, states, log, k, r);
  }

  // ----- Reuse of addresses ------------------------------------------------

  /** The slot is taken, and its range, once it has an expiry time, expires no
      earlier than `end`. */
  ghost predicate TakenUntil(s: State, r: nat, slot: nat, end: int) {
    && r < |s.ranges|
    && slot in s.ranges[r].used
    && (s.ranges[r].expire == 0 || end <= s.ranges[r].expire)
  }

  lemma StepKeepsTaken(ps: Params, s: State, e: Event, s': State, r: nat, slot: nat, end: int)
    requires Step(ps, s, e, s') && TakenUntil(s, r, slot, end)
    requires end <= e.now + ps.leaseTime < TWO_32
    ensures TakenUntil(s', r, slot, end) || end <= e.now
  {
    StepOnRange(ps, s, e, s', r);
  }

  lemma {:induction false} TakenOrOver(ps: Params, states: seq<State>, log: seq<Event>, i: nat, j: nat,
                                       r: nat, slot: nat, end: int)
    requires IsRun(ps, states, log) && i < j < |log|
    requires TakenUntil(states[i + 1], r, slot, end) && end <= log[i].now + ps.leaseTime
    ensures TakenUntil(states[j], r, slot, end) || end <= log[j].now
    decreases j
  {
    if i + 1 < j {
      TakenOrOver(ps, states, log, i, j - 1, r, slot, end);
      assert StepAt(ps, states, log, j - 1);
      if TakenUntil(states[j - 1], r, slot, end) {
        StepKeepsTaken(ps, states[j - 1], log[j - 1], states[j], r, slot, end);
      }
    }
  }

  /** When the address of a lease committed at `now` may be leased again: one lease
      time after the offer that fills its range, which is still to come if the range
      has no expiry time yet. */
  function ReuseTime(ps: Params, rg: RangeState, now: uint32): int {
    if rg.expire == 0 then now + ps.leaseTime else rg.expire
  }

  /** Over whole runs, for any number of ranges and rotations: the same address is
      acknowledged again only after its reuse time. */
  lemma ReuseIsLate(ps: Params, states: seq<State>, log: seq<Event>, i: nat, j: nat)
    requires IsRun(ps, states, log) && i < j < |log|
    requires log[i].Acked? && log[j].Acked? && log[i].ip == log[j].ip
    ensures Shaped(ps, states[i])
    ensures ReuseTime(ps, states[i].ranges[states[i].cur], log[i].now) <= log[j].now
  {
    assert StepAt(ps, states, log, i) && StepAt(ps, states, log, j);
    var r := states[i].cur;
    var slot, rg := log[i].ip - ps.Base(r), states[i].ranges[r];
    var end := ReuseTime(ps, rg, log[i].now);
    if rg.expire > 0 {
      var f := ExpiryIsFillTime(ps, states, log, i, r);
    }
    TakenOrOver(ps, states, log, i, j, r, slot, end);
    if TakenUntil(states[j], r, slot, end) {
      SlotIsUnique(ps, r, states[j].cur, log[j].ip);
    }
  }

  /** Leases of one address do not overlap when the earlier one was committed no
      later than the offer that filled its range. */
  lemma LeasesDoNotOverlap(ps: Params, states: seq<State>, log: seq<Event>, i: nat, j: nat)
    requires IsRun(ps, states, log) && i < j < |log|
    requires log[i].Acked? && log[j].Acked? && log[i].ip == log[j].ip
    requires Shaped(ps, states[i])
    requires var expire := states[i].ranges[states[i].cur].expire;
             expire == 0 || exists f :: Filled(ps, log, f, states[i].cur, expire) && log[i].now <= log[f].now
    ensures log[i].now + ps.leaseTime <= log[j].now
  {
    ReuseIsLate(ps, states, log, i, j);
  }

  ghost predicate PeekGives(ps: Params, s: State, now: uint32, s': State, ip: uint32) {
    Shaped(ps, s) && Peek(ps, s, now).0 == s' && Peek(ps, s, now).1 == ip
  }

  lemma LatePeeks(ps: Params)
    requires ps == Params(1, 1, 2, 10, 2)
    ensures var free, used := RangeState({}, 0), RangeState({0}, 11);
            && ps.Valid()
            && PeekGives(ps, State(0, 0, [free, free]), 1, State(0, 1, [RangeState({}, 11), free]), 1)
            && PeekGives(ps, State(0, 1, [used, free]), 10, State(1, 1, [used, RangeState({}, 20)]), 2)
            && PeekGives(ps, State(1, 1, [used, RangeState({}, 20)]), 11,
                         State(0, 1, [RangeState({}, 21), RangeState({}, 20)]), 1)
  {
    assert ps.Raw(1) == 2 && ps.Raw(2) == 3;
  }

  /** A lease committed after its range was filled can overlap the next one. */
  lemma LateCommitOverlaps(ps: Params) returns (states: seq<State>, log: seq<Event>)
    requires ps == Params(1, 1, 2, 10, 2)
    ensures IsRun(ps, states, log) && |log| == 5
    ensures log[1].Acked? && log[4].Acked? && log[1].ip == log[4].ip
    ensures log[4].now < log[1].now + ps.leaseTime
  {
    LatePeeks(ps);
    var free, used := RangeState({}, 0), RangeState({0}, 11);
    var s1, s4 := State(0, 1, [RangeState({}, 11), free]), State(0, 1, [RangeState({}, 21), RangeState({}, 20)]);
    var s2, s5 := State(0, 1, [used, free]), State(0, 1, [RangeState({0}, 21), RangeState({}, 20)]);
    var none: set<nat> := {};
    assert none + {0} == {0};
    assert Commit(ps, s1, 1).0 == s2 && Commit(ps, s4, 1).0 == s5;
    states := [State(0, 0, [free, free]), s1, s2, State(1, 1, [used, RangeState({}, 20)]), s4, s5];
    log := [Discovered(1, 1), Acked(10, 1), Discovered(10, 2), Discovered(11, 1), Acked(11, 1)];
    assert StepAt(ps, states, log, 0) && StepAt(ps, states, log, 1) && StepAt(ps, states, log, 2)
           && StepAt(ps, states, log, 3) && StepAt(ps, states, log, 4);
  }

  // ----- Exactly when a lease is safe --------------------------------------

  /** A lease committed now, on a range in this state, cannot meet a later one: it takes
      no time, its range has no expiry time yet, or one that is not before the end of the
      lease, or one so late that the clock leaves no time for another lease. */
  predicate InTime(ps: Params, rg: RangeState, now: uint32) {
    || ps.leaseTime == 0 || rg.expire == 0
    || now + ps.leaseTime <= rg.expire
    || rg.expire + ps.leaseTime >= TWO_32
  }

  /** However the run goes on, the address of its last event, an acknowledgement, is
      acknowledged again only when that lease is over. */
  ghost predicate NeverOverlapped(ps: Params, states: seq<State>, log: seq<Event>)
    requires log != [] && log[|log| - 1].Acked?
  {
    forall states': seq<State>, log': seq<Event>, j
      | Continues(ps, states, log, states', log') && |log| <= j < |log'| ::
      log'[j].Acked? && log'[j].ip == log[|log| - 1].ip ==> log[|log| - 1].now + ps.leaseTime <= log'[j].now
  }

  ghost predicate Continues(ps: Params, states: seq<State>, log: seq<Event>, states': seq<State>, log': seq<Event>) {
    IsRun(ps, states', log') && states <= states' && log <= log'
  }

  /** Nothing happened later than `t`. */
  ghost predicate UpTo(log: seq<Event>, t: int) {
    forall i | 0 <= i < |log| :: log[i].now <= t
  }

  predicate Full(ps: Params, s: State) {
    s.counter >= ps.rangeSize
  }

  /** A current range with an expiry time is used up, and none expires later. */
  ghost predicate Ordered(ps: Params, s: State, t: int) {
    && Shaped(ps, s)
    && (forall q | 0 <= q < ps.numRanges :: s.ranges[q].expire <= t + ps.leaseTime)
    && (s.ranges[s.cur].expire > 0 ==>
          Full(ps, s) && forall q | 0 <= q < ps.numRanges :: s.ranges[q].expire <= s.ranges[s.cur].expire)
  }

  lemma StepKeepsOrdered(ps: Params, s: State, e: Event, s': State, t: int)
    requires Ordered(ps, s, t) && Step(ps, s, e, s') && t <= e.now && e.now + ps.leaseTime < TWO_32
    ensures Ordered(ps, s', e.now)
  {
  }

  lemma {:induction false} RunOrdered(ps: Params, states: seq<State>, log: seq<Event>, k: nat)
    requires IsRun(ps, states, log) && k <= |log|
    ensures Ordered(ps, states[k], if k == 0 then 0 else log[k - 1].now)
  {
    if k > 0 {
      RunOrdered(ps, states, log, k - 1);
      assert StepAt(ps, states, log, k - 1);
      StepKeepsOrdered(ps, states[k - 1], log[k - 1], states[k], if k == 1 then 0 else log[k - 2].now);
    }
  }

  lemma ExtendRun(ps: Params, states: seq<State>, log: seq<Event>, e: Event, s': State)
    requires IsRun(ps, states, log) && Step(ps, states[|log|], e, s')
    requires UpTo(log, e.now) && e.now + ps.leaseTime < TWO_32
    ensures Continues(ps, states, log, states + [s'], log + [e]) && UpTo(log + [e], e.now)
  {
    var states', log' := states + [s'], log + [e];
    forall i | 0 <= i < |log'| ensures StepAt(ps, states', log', i) {
      if i < |log| {
        assert StepAt(ps, states, log, i);
      }
    }
  }

  /** One more DISCOVER at time `t`. */
  lemma OneMore(ps: Params, states: seq<State>, log: seq<Event>, t: uint32)
    returns (states': seq<State>, log': seq<Event>)
    requires IsRun(ps, states, log) && UpTo(log, t) && t + ps.leaseTime < TWO_32
    ensures Continues(ps, states, log, states', log') && UpTo(log', t)
    ensures Shaped(ps, states[|log|])
    ensures states' == states + [Peek(ps, states[|log|], t).0]
    ensures log' == log + [Discovered(t, Peek(ps, states[|log|], t).1)]
  {
    RunShaped(ps, states, log, |log|);
    var (s', ip) := Peek(ps, states[|log|], t);
    ExtendRun(ps, states, log, Discovered(t, ip), s');
    states', log' := states + [s'], log + [Discovered(t, ip)];
  }

  ghost predicate SameExcept(ps: Params, s: State, s': State, r: nat) {
    Shaped(ps, s) && Shaped(ps, s') && forall q | 0 <= q < ps.numRanges && q != r :: s'.ranges[q] == s.ranges[q]
  }

  /** The last address of range `r` can be offered. */
  predicate CanFill(ps: Params, rg: RangeState, r: nat) {
    0 < ps.rangeSize && 1 < ps.Base(r) + ps.rangeSize < TWO_32 && ps.rangeSize - 1 !in rg.used
  }

  /** Range `r` is current and will get its expiry time before it is used up. */
  predicate OnTrack(ps: Params, s: State, r: nat) {
    Shaped(ps, s) && s.cur == r && CanFill(ps, s.ranges[r], r) && (Full(ps, s) ==> s.ranges[r].expire > 0)
  }

  lemma PeekKeepsTrack(ps: Params, s: State, t: uint32)
    requires OnTrack(ps, s, s.cur) && !Full(ps, s) && 0 < t + ps.leaseTime < TWO_32
    ensures OnTrack(ps, Peek(ps, s, t).0, s.cur)
  {
    var free := NextFree(s.ranges[s.cur].used, s.counter, ps.rangeSize);
    assert free <= ps.rangeSize - 1;
    if free == ps.rangeSize - 1 {
      assert ps.InRange(s.cur, Wrap(ps.Base(s.cur) + free));
    }
  }

  /** Enough DISCOVERs use the current range up and leave the others alone. */
  lemma {:induction false} FillUp(ps: Params, states: seq<State>, log: seq<Event>, t: uint32)
    returns (states': seq<State>, log': seq<Event>)
    requires IsRun(ps, states, log) && UpTo(log, t) && t + ps.leaseTime < TWO_32
    ensures Continues(ps, states, log, states', log') && UpTo(log', t)
    ensures var s, s' := states[|log|], states'[|log'|];
            && s'.cur == s.cur && Full(ps, s') && SameExcept(ps, s, s', s.cur)
            && (Full(ps, s) ==> s' == s)
            && (OnTrack(ps, s, s.cur) && t + ps.leaseTime > 0 ==> OnTrack(ps, s', s.cur))
    decreases ps.rangeSize - states[|log|].counter
  {
    if Full(ps, states[|log|]) {
      RunShaped(ps, states, log, |log|);
      states', log' := states, log;
    } else {
      var states1, log1 := OneMore(ps, states, log, t);
      if OnTrack(ps, states[|log|], states[|log|].cur) && t + ps.leaseTime > 0 {
        PeekKeepsTrack(ps, states[|log|], t);
      }
      states', log' := FillUp(ps, states1, log1, t);
    }
  }

  ghost predicate AvailableAhead(ps: Params, s: State, d: nat, t: int) {
    && Shaped(ps, s) && d <= ps.numRanges
    && forall k | 1 <= k <= d :: s.ranges[Ahead(s.cur, k, ps.numRanges)].expire <= t
  }

  /** From a used-up range one DISCOVER moves on to the next one if it is available. */
  lemma PeekMovesOn(ps: Params, s: State, t: uint32)
    requires AvailableAhead(ps, s, 1, t) && Full(ps, s)
    ensures var s', next := Peek(ps, s, t).0, Ahead(s.cur, 1, ps.numRanges);
            && s'.cur == next && SameExcept(ps, s, s', next)
            && (s.ranges[next].expire > 0 ==> s'.ranges[next].used == {})
            && (CanFill(ps, s.ranges[next], next) && 0 < t + ps.leaseTime < TWO_32 ==> OnTrack(ps, s', next))
  {
    var next := Ahead(s.cur, 1, ps.numRanges);
    ModOnce(s.cur + 1, ps.numRanges);
    assert NextRange(ps, s) == next;
    if CanFill(ps, s.ranges[next], next) && 0 < t + ps.leaseTime < TWO_32 {
      var s1 := Advanced(ps, s, t);
      PeekKeepsTrack(ps, s1, t);
      assert Peek(ps, s, t).0 == Peek(ps, s1, t).0;
    }
  }

  /** DISCOVERs at one point in time go through `d` available ranges. */
  lemma {:induction false} MoveAhead(ps: Params, states: seq<State>, log: seq<Event>, d: nat, t: uint32)
    returns (states': seq<State>, log': seq<Event>)
    requires IsRun(ps, states, log) && UpTo(log, t) && t + ps.leaseTime < TWO_32
    requires d > 0 && AvailableAhead(ps, states[|log|], d, t) && Full(ps, states[|log|])
    ensures Continues(ps, states, log, states', log') && UpTo(log', t)
    ensures var s, s', r := states[|log|], states'[|log'|], Ahead(states[|log|].cur, d, ps.numRanges);
            && Shaped(ps, s') && s'.cur == r
            && (s.ranges[r].expire > 0 ==> s'.ranges[r].used == {})
            && (CanFill(ps, s.ranges[r], r) && t + ps.leaseTime > 0 ==> OnTrack(ps, s', r))
    decreases d
  {
    var s := states[|log|];
    PeekMovesOn(ps, s, t);
    states', log' := OneMore(ps, states, log, t);
    if d > 1 {
      var states2, log2 := FillUp(ps, states', log', t);
      var s2 := states2[|log2|];
      forall k | 0 <= k <= d - 1 ensures Ahead(s2.cur, k, ps.numRanges) == Ahead(s.cur, k + 1, ps.numRanges) {}
      forall k | 1 <= k <= d - 1
        ensures s2.ranges[Ahead(s2.cur, k, ps.numRanges)] == s.ranges[Ahead(s.cur, k + 1, ps.numRanges)]
      {
        assert Ahead(s2.cur, k, ps.numRanges) != s2.cur;
      }
      states', log' := MoveAhead(ps, states2, log2, d - 1, t);
    }
  }

  /** A lease committed too late can be overlapped: going once round all ranges at the
      moment its range expires, the address is acknowledged again. */
  lemma LateIsOverlapped(ps: Params, states: seq<State>, log: seq<Event>)
    returns (states': seq<State>, log': seq<Event>)
    requires IsRun(ps, states, log) && log != []
    requires var last := |log| - 1;
             && log[last].Acked? && Shaped(ps, states[last])
             && !InTime(ps, states[last].ranges[states[last].cur], log[last].now)
    ensures Continues(ps, states, log, states', log') && |log'| > |log|
    ensures var e, e' := log[|log| - 1], log'[|log'| - 1];
            e'.Acked? && e'.ip == e.ip && e'.now < e.now + ps.leaseTime
  {
    var last, s := |log| - 1, states[|log|];
    var now, ip := log[last].now, log[last].ip;
    assert StepAt(ps, states, log, last);
    RunOrdered(ps, states, log, last);
    RunOrdered(ps, states, log, |log|);
    var t: uint32 := if s.ranges[s.cur].expire <= now then now else s.ranges[s.cur].expire;
    assert Ahead(s.cur, ps.numRanges, ps.numRanges) == s.cur;
    var states1, log1 := MoveAhead(ps, states, log, ps.numRanges, t);
    var s1 := states1[|log1|];
    var s2 := Commit(ps, s1, ip).0;
    ExtendRun(ps, states1, log1, Acked(t, ip), s2);
    states', log' := states1 + [s2], log1 + [Acked(t, ip)];
  }

  /** Exactly: a lease is never overlapped by a later lease of the same address if and
      only if it was committed in time. */
  lemma NeverOverlappedIff(ps: Params, states: seq<State>, log: seq<Event>)
    requires IsRun(ps, states, log) && log != []
    requires log[|log| - 1].Acked?
    ensures var s := states[|log| - 1];
            && Shaped(ps, s)
            && (NeverOverlapped(ps, states, log) <==> InTime(ps, s.ranges[s.cur], log[|log| - 1].now))
  {
    var last := |log| - 1;
    RunShaped(ps, states, log, last);
    if InTime(ps, states[last].ranges[states[last].cur], log[last].now) {
      forall states': seq<State>, log': seq<Event>, j | Continues(ps, states, log, states', log') && |log| <= j < |log'|
                                && log'[j].Acked? && log'[j].ip == log[last].ip
        ensures log[last].now + ps.leaseTime <= log'[j].now
      {
        ReuseIsLate(ps, states', log', last, j);
      }
    } else {
      var states', log' := LateIsOverlapped(ps, states, log);
      assert log'[|log'| - 1].Acked?;
    }
  }

  // ----- Exactly when a slot can be freed ----------------------------------

  /** The range has no expiry time and will never get one: its last address, whose offer
      would set it, is in use. */
  predicate Lost(ps: Params, rg: RangeState) {
    rg.expire == 0 && ps.rangeSize as int - 1 in rg.used
  }

  ghost predicate CanBeFreed(ps: Params, states: seq<State>, log: seq<Event>, r: nat, slot: nat) {
    exists states': seq<State>, log': seq<Event> ::
      Continues(ps, states, log, states', log') && SlotFree(states'[|log'|], r, slot)
  }

  ghost predicate SlotFree(s: State, r: nat, slot: nat) {
    r < |s.ranges| && slot !in s.ranges[r].used
  }

  lemma StepKeepsLost(ps: Params, s: State, e: Event, s': State, r: nat)
    requires Step(ps, s, e, s') && r < ps.numRanges && Lost(ps, s.ranges[r])
    ensures Shaped(ps, s') && Lost(ps, s'.ranges[r]) && s.ranges[r].used <= s'.ranges[r].used
  {
  }

  lemma {:induction false} LostForEver(ps: Params, states: seq<State>, log: seq<Event>, i: nat, k: nat, r: nat)
    requires IsRun(ps, states, log) && i <= k <= |log| && r < ps.numRanges
    requires Shaped(ps, states[i]) && Lost(ps, states[i].ranges[r])
    ensures Shaped(ps, states[k]) && Lost(ps, states[k].ranges[r])
    ensures states[i].ranges[r].used <= states[k].ranges[r].used
    decreases k
  {
    if i < k {
      LostForEver(ps, states, log, i, k - 1, r);
      assert StepAt(ps, states, log, k - 1);
      StepKeepsLost(ps, states[k - 1], log[k - 1], states[k], r);
    }
  }

  /** Only ranges that do not wrap ever have slots in use. */
  lemma {:induction false} UsedInRange(ps: Params, states: seq<State>, log: seq<Event>, k: nat, r: nat, slot: nat)
    requires IsRun(ps, states, log) && k <= |log| && r < ps.numRanges
    requires Shaped(ps, states[k]) && slot in states[k].ranges[r].used
    ensures slot < ps.rangeSize && ps.Base(r) + ps.rangeSize < TWO_32
    decreases k
  {
    assert k > 0;
    assert StepAt(ps, states, log, k - 1);
    if slot in states[k - 1].ranges[r].used {
      UsedInRange(ps, states, log, k - 1, r, slot);
    } else {
      InRangeMeans(ps, r, log[k - 1].ip);
    }
  }

  /** How far range `r` is ahead of range `c`, going all the way round if it is `c`. */
  function StepsAhead(c: nat, r: nat, n: nat): (d: nat)
    requires c < n && r < n
    ensures 0 < d <= n && Ahead(c, d, n) == r
  {
    if c < r then r - c else r - c + n
  }

  ghost predicate AllExpiredBy(ps: Params, s: State, t: int) {
    Shaped(ps, s) && forall q | 0 <= q < ps.numRanges :: s.ranges[q].expire <= t
  }

  /** DISCOVERs at one point in time reach range `r`, if by then every range has expired. */
  lemma GoTo(ps: Params, states: seq<State>, log: seq<Event>, r: nat, t: uint32)
    returns (states': seq<State>, log': seq<Event>)
    requires IsRun(ps, states, log) && UpTo(log, t) && t + ps.leaseTime < TWO_32 && r < ps.numRanges
    requires AllExpiredBy(ps, states[|log|], t)
    requires states[|log|].cur != r || Full(ps, states[|log|])
    ensures Continues(ps, states, log, states', log') && UpTo(log', t)
    ensures var s, s' := states[|log|], states'[|log'|];
            && Shaped(ps, s') && s'.cur == r
            && (s.ranges[r].expire > 0 ==> s'.ranges[r].used == {})
            && (CanFill(ps, s.ranges[r], r) && t + ps.leaseTime > 0 ==> OnTrack(ps, s', r))
  {
    var states1, log1 := FillUp(ps, states, log, t);
    var s, s1 := states[|log|], states1[|log1|];
    var d := StepsAhead(s1.cur, r, ps.numRanges);
    forall k | 1 <= k <= d ensures s1.ranges[Ahead(s1.cur, k, ps.numRanges)].expire <= t {
      if k < ps.numRanges {
        assert Ahead(s1.cur, k, ps.numRanges) != s1.cur;
      }
    }
    states', log' := MoveAhead(ps, states1, log1, d, t);
  }

  /** A range that has an expiry time can be freed when all have expired. */
  lemma FreeExpired(ps: Params, states: seq<State>, log: seq<Event>, r: nat, t: uint32)
    returns (states': seq<State>, log': seq<Event>)
    requires IsRun(ps, states, log) && UpTo(log, t) && t + ps.leaseTime < TWO_32 && r < ps.numRanges
    requires AllExpiredBy(ps, states[|log|], t) && states[|log|].ranges[r].expire > 0
    ensures Continues(ps, states, log, states', log')
    ensures Shaped(ps, states'[|log'|]) && states'[|log'|].ranges[r].used == {}
  {
    RunOrdered(ps, states, log, |log|);
    states', log' := GoTo(ps, states, log, r, t);
  }

  /** A range whose last address is not in use can be given an expiry time. */
  lemma FillRange(ps: Params, states: seq<State>, log: seq<Event>, r: nat, t: uint32)
    returns (states': seq<State>, log': seq<Event>)
    requires IsRun(ps, states, log) && UpTo(log, t) && 0 < t + ps.leaseTime < TWO_32 && r < ps.numRanges
    requires AllExpiredBy(ps, states[|log|], t) && CanFill(ps, states[|log|].ranges[r], r)
    ensures Continues(ps, states, log, states', log') && UpTo(log', t)
    ensures Shaped(ps, states'[|log'|]) && states'[|log'|].ranges[r].expire > 0
  {
    states', log' := states, log;
    if states[|log|].cur != r || Full(ps, states[|log|]) {
      states', log' := GoTo(ps, states, log, r, t);
    }
    states', log' := FillUp(ps, states', log', t);
  }

  /** Exactly: a committed slot can ever be freed if and only if its range has an expiry
      time or its last address is not in use. So a REQUEST for the last address of a
      range before it is offered makes all leases of the range last for ever. The clock
      must have room for three more lease times. */
  lemma FreedIff(ps: Params, states: seq<State>, log: seq<Event>, r: nat, slot: nat)
    requires IsRun(ps, states, log) && log != [] && r < ps.numRanges
    requires log[|log| - 1].now + 3 * ps.leaseTime + 1 < TWO_32
    requires Shaped(ps, states[|log|]) && slot in states[|log|].ranges[r].used
    ensures CanBeFreed(ps, states, log, r, slot) <==> !Lost(ps, states[|log|].ranges[r])
  {
    if Lost(ps, states[|log|].ranges[r]) {
      forall states': seq<State>, log': seq<Event> | Continues(ps, states, log, states', log')
        ensures !SlotFree(states'[|log'|], r, slot)
      {
        LostForEver(ps, states', log', |log|, |log'|, r);
      }
    } else {
      var states', log' := FreeSlot(ps, states, log, r, slot);
    }
  }

  /** One REQUEST is enough to lose a range, of any size. */
  lemma EarlyCommitIsLost(ps: Params, now: uint32) returns (states: seq<State>, log: seq<Event>)
    requires ps.Valid() && 0 < ps.rangeSize && ps.poolStart + ps.rangeSize < TWO_32 && now + ps.leaseTime < TWO_32
    requires ps.poolStart + ps.rangeSize - 1 <= ps.poolEnd
    ensures IsRun(ps, states, log) && |log| == 1 && log[0] == Acked(now, ps.poolStart + ps.rangeSize - 1)
    ensures Shaped(ps, states[1]) && Lost(ps, states[1].ranges[0])
  {
    states, log := FreshRun(ps);
    var ip := ps.poolStart + ps.rangeSize - 1;
    assert ps.Base(0) == ps.poolStart && Available(ps, states[0], ip);
    ExtendRun(ps, states, log, Acked(now, ip), Commit(ps, states[0], ip).0);
    states, log := states + [Commit(ps, states[0], ip).0], log + [Acked(now, ip)];
  }

  lemma FreeSlot(ps: Params, states: seq<State>, log: seq<Event>, r: nat, slot: nat)
    returns (states': seq<State>, log': seq<Event>)
    requires IsRun(ps, states, log) && log != [] && r < ps.numRanges
    requires log[|log| - 1].now + 3 * ps.leaseTime + 1 < TWO_32
    requires Shaped(ps, states[|log|]) && slot in states[|log|].ranges[r].used && !Lost(ps, states[|log|].ranges[r])
    ensures Continues(ps, states, log, states', log') && SlotFree(states'[|log'|], r, slot)
  {
    var t: uint32 := log[|log| - 1].now + ps.leaseTime + 1;
    RunOrdered(ps, states, log, |log|);
    UsedInRange(ps, states, log, |log|, r, slot);
    states', log' := states, log;
    if states[|log|].ranges[r].expire == 0 {
      states', log' := FillRange(ps, states, log, r, t);
    }
    RunOrdered(ps, states', log', |log'|);
    states', log' := FreeExpired(ps, states', log', r, t + ps.leaseTime);
  }

  // ----- Offers are honoured -----------------------------------------------

  /** A REQUEST for `ip` would be acknowledged. */
  predicate Granted(ps: Params, s: State, ip: uint32) {
    Shaped(ps, s) && ps.poolStart <= ip <= ps.poolEnd && Commit(ps, s, ip).1
  }

  /** All addresses that can be offered lie in the configured pool. */
  ghost predicate Configured(ps: Params) {
    forall r, ip: uint32 | 0 <= r < ps.numRanges && ps.InRange(r, ip) && ip != 0 :: ps.poolStart <= ip <= ps.poolEnd
  }

  /** A REQUEST directly after the offer is acknowledged. */
  lemma OfferIsHonoured(ps: Params, s: State, now: uint32)
    requires Shaped(ps, s) && Peek(ps, s, now).1 != 0 && Configured(ps)
    ensures var (s', ip) := Peek(ps, s, now);
            && Granted(ps, s', ip)
            && Step(ps, s', Acked(now, ip), Commit(ps, s', ip).0) && !Step(ps, s', Nacked(now, ip), s')
  {
    var (s', ip) := Peek(ps, s, now);
    assert ps.InRange(s'.cur, ip);
  }

  /** In every run, every offer would be honoured by the next message. */
  ghost predicate OffersAreHonoured(ps: Params) {
    forall states: seq<State>, log: seq<Event>, k | IsRun(ps, states, log) && 0 <= k < |log| ::
      log[k].Discovered? && log[k].offered != 0 ==> Granted(ps, states[k + 1], log[k].offered)
  }

  /** The next DISCOVER looks at the first slot of the untouched range `r`. */
  ghost predicate AboutTo(ps: Params, s: State, r: nat) {
    && Shaped(ps, s) && r < ps.numRanges && s.ranges[r] == RangeState({}, 0)
    && ((s.cur == r && s.counter == 0) || (Full(ps, s) && NextRange(ps, s) == r))
  }

  ghost predicate Untouched(ps: Params, s: State, from: nat) {
    Shaped(ps, s) && forall q | from <= q < ps.numRanges :: s.ranges[q] == RangeState({}, 0)
  }

  /** A run that used up ranges 0 to `r` and left the others alone. */
  lemma {:induction false} FullUpTo(ps: Params, r: nat) returns (states: seq<State>, log: seq<Event>)
    requires ps.Valid() && r < ps.numRanges
    ensures IsRun(ps, states, log) && UpTo(log, 0)
    ensures var s := states[|log|]; s.cur == r && Full(ps, s) && Untouched(ps, s, r + 1)
  {
    if r == 0 {
      states, log := FreshRun(ps);
    } else {
      states, log := FullUpTo(ps, r - 1);
      var s := states[|log|];
      ModOnce(s.cur + 1, ps.numRanges);
      assert Ahead(s.cur, 1, ps.numRanges) == r;
      PeekMovesOn(ps, s, 0);
      states, log := OneMore(ps, states, log, 0);
    }
    states, log := FillUp(ps, states, log, 0);
  }

  lemma FreshRun(ps: Params) returns (states: seq<State>, log: seq<Event>)
    requires ps.Valid()
    ensures IsRun(ps, states, log) && log == [] && states[0].counter == 0 && Untouched(ps, states[0], 0)
    ensures states[0].cur == 0
  {
    states, log := [State(0, 0, seq(ps.numRanges, _ => RangeState({}, 0)))], [];
  }

  /** A run whose next DISCOVER looks at the first slot of range `r`. */
  lemma BeforeRange(ps: Params, r: nat) returns (states: seq<State>, log: seq<Event>)
    requires ps.Valid() && r < ps.numRanges
    ensures IsRun(ps, states, log) && UpTo(log, 0) && AboutTo(ps, states[|log|], r)
  {
    if r == 0 {
      states, log := FreshRun(ps);
    } else {
      states, log := FullUpTo(ps, r - 1);
      ModOnce(r, ps.numRanges);
    }
  }

  /** After so many DISCOVERs the slots of range `r` are offered in order. */
  lemma {:induction false} OfferSlots(ps: Params, r: nat, a: nat) returns (states: seq<State>, log: seq<Event>)
    requires ps.Valid() && r < ps.numRanges && a < ps.rangeSize
    ensures IsRun(ps, states, log) && UpTo(log, 0) && log != []
    ensures var s, ip := states[|log|], Wrap(ps.Base(r) + a);
            && Shaped(ps, s) && s.cur == r && s.counter == a + 1 && s.ranges[r].used == {}
            && log[|log| - 1] == Discovered(0, if ps.InRange(r, ip) then ip else 0)
    decreases a
  {
    if a == 0 {
      states, log := BeforeRange(ps, r);
    } else {
      states, log := OfferSlots(ps, r, a - 1);
    }
    states, log := OneMore(ps, states, log, 0);
  }

  /** Exactly: offers are honoured if and only if all addresses that can be offered lie in
      the configured pool. */
  lemma OffersHonouredIff(ps: Params)
    requires ps.Valid()
    ensures OffersAreHonoured(ps) <==> Configured(ps)
  {
    if Configured(ps) {
      forall states: seq<State>, log: seq<Event>, k
        | IsRun(ps, states, log) && 0 <= k < |log| && log[k].Discovered? && log[k].offered != 0
        ensures Granted(ps, states[k + 1], log[k].offered)
      {
        assert StepAt(ps, states, log, k);
        OfferIsHonoured(ps, states[k], log[k].now);
      }
    } else {
      var r, ip: uint32 :| 0 <= r < ps.numRanges && ps.InRange(r, ip) && ip != 0 && !(ps.poolStart <= ip <= ps.poolEnd);
      InRangeMeans(ps, r, ip);
      var states, log := OfferSlots(ps, r, ip - ps.Base(r));
      assert log[|log| - 1] == Discovered(0, ip);
      assert !Granted(ps, states[|log|], ip);
    }
  }

  // ----- The pool ----------------------------------------------------------

  class UnitimePool {
    const params: Params
    const ranges: seq<Range>
    var cur: nat
    var counter: nat

    ghost predicate Valid()
      reads this
    {
      && params.Valid() && |ranges| == params.numRanges && cur < params.numRanges
      && (forall i | 0 <= i < |ranges| :: params.rangeSize <= 32 * ranges[i].ips.Length)
      && (forall i, j | 0 <= i < j < |ranges| :: ranges[i] != ranges[j] && ranges[i].ips != ranges[j].ips)
    }

    ghost function Memory(): set<object> {
      (set i | 0 <= i < |ranges| :: ranges[i] as object) + (set i | 0 <= i < |ranges| :: ranges[i].ips as object)
    }

    lemma InMemory(i: nat)
      requires i < |ranges|
      ensures ranges[i] in Memory() && ranges[i].ips in Memory()
    {
    }

    ghost function View(): State
      reads this, Memory()
    {
      assert forall i | 0 <= i < |ranges| :: ranges[i] in Memory() && ranges[i].ips in Memory();
      State(cur, counter, seq(|ranges|, i requires 0 <= i < |ranges| reads Memory() => ranges[i].View()))
    }

    constructor (params: Params, ranges: seq<Range>, counter: nat)
      requires params.Valid() && |ranges| == params.numRanges
      requires forall i | 0 <= i < |ranges| :: params.rangeSize <= 32 * ranges[i].ips.Length
      requires forall i, j | 0 <= i < j < |ranges| :: ranges[i] != ranges[j] && ranges[i].ips != ranges[j].ips
      modifies set i | 0 <= i < |ranges| :: ranges[i]
      modifies set i | 0 <= i < |ranges| :: ranges[i].ips
      ensures Valid() && this.params == params && this.ranges == ranges && Initial(params, View())
    {
      this.params, this.ranges, this.cur, this.counter := params, ranges, 0, counter;
      new;
      for k := 0 to |ranges|
        invariant cur == 0 && this.counter == counter
        invariant forall i | 0 <= i < k :: ranges[i].View() == RangeState({}, 0)
      {
        ranges[k].Recycle();
      }
    }

    method PeekIp(now: uint32) returns (ip: uint32)
      requires Valid()
      modifies this, Memory()
      ensures Valid() && (View(), ip) == Peek(params, old(View()), now)
    {
      var stuck := Advance(now);
      if stuck {
        return 0;
      }
      InMemory(cur);
      ghost var s := View();
      assert s.ranges[cur] == ranges[cur].View();
      ip := OfferHere(now);
      assert ranges[cur].View().used == s.ranges[cur].used;
      assert View().ranges == s.ranges[cur := ranges[cur].View()];
      assert s.ranges[cur := s.ranges[cur]] == s.ranges;
    }

    /** The part of a peek that moves on to the next range. */
    method Advance(now: uint32) returns (stuck: bool)
      requires Valid()
      modifies this, Memory()
      ensures Valid() && View() == Advanced(params, old(View()), now) && stuck == Stuck(params, old(View()), now)
    {
      stuck := false;
      if counter >= params.rangeSize {
        ghost var s := View();
        var next := (cur + 1) % params.numRanges;
        InMemory(next);
        assert s.ranges[next] == ranges[next].View();
        if ranges[next].expire > 0 && ranges[next].expire <= now {
          ranges[next].Recycle();
        }
        assert View().ranges == s.ranges[next := Recycled(s.ranges[next], now)];
        if ranges[next].expire == 0 {
          cur, counter := next, 0;
        } else {
          stuck := true;
        }
      }
    }

    /** The part of a peek that works on the current range. */
    method OfferHere(now: uint32) returns (ip: uint32)
      requires Valid()
      modifies this`counter, ranges[cur]
      ensures var free := NextFree(SlotsIn(ranges[cur].ips[..]), old(counter), params.rangeSize);
              var found := Wrap(params.Base(cur) + free);
              if free < params.rangeSize && found != 0 && params.InRange(cur, found) then
                && ip == found && counter == free + 1
                && ranges[cur].expire == if old(ranges[cur].expire) == 0 && free + 1 >= params.rangeSize
                                         then Wrap(now + params.leaseTime) else old(ranges[cur].expire)
              else
                && ip == 0 && ranges[cur].expire == old(ranges[cur].expire)
                && counter == if free < params.rangeSize then free + 1 else free
    {
      counter, ip := ScanSlots(ranges[cur].ips, params.Base(cur), counter, params.rangeSize);
      if ip == 0 {
        return;
      }
      FoundInRange(params, cur, counter - 1, ip);
      var used := IpUsed(ip);
      if used {
        return 0;
      }
      if ranges[cur].expire == 0 && counter >= params.rangeSize {
        ranges[cur].expire := Wrap(now + params.leaseTime);
      }
    }

    /** Addresses outside the current range count as used. */
    method IpUsed(ip: uint32) returns (r: bool)
      requires Valid()
      ensures r <==> !params.InRange(cur, ip) || ip - params.Base(cur) in SlotsIn(ranges[cur].ips[..])
    {
      var base := params.Base(cur);
      if ip < base || ip >= Wrap(base + params.rangeSize) {
        return true;
      }
      r := SlotUsed(ranges[cur].ips, ip - base, params.rangeSize);
    }

    method CommitIp(ip: uint32) returns (ok: bool)
      requires Valid()
      modifies ranges[cur].ips
      ensures Valid() && (View(), ok) == Commit(params, old(View()), ip)
    {
      ghost var s := View();
      assert s.ranges[cur] == ranges[cur].View();
      var taken := IpUsed(ip);
      if taken {
        assert View().ranges == s.ranges;
        return false;
      }
      InRangeMeans(params, cur, ip);
      SetSlot(ranges[cur].ips, ip - params.Base(cur));
      assert View().ranges == s.ranges[cur := ranges[cur].View()];
      return true;
    }
  }

  // ----- The server --------------------------------------------------------

  datatype Request = Discover | RequestFor(ip: uint32)

  /** Handles one message. */
  method Process(pool: UnitimePool, request: Request, now: uint32) returns (e: Event)
    requires pool.Valid()
    modifies pool, pool.Memory()
    ensures pool.Valid() && Step(pool.params, old(pool.View()), e, pool.View())
    ensures e.now == now && (request.Discover? <==> e.Discovered?) && (request.RequestFor? ==> e.ip == request.ip)
  {
    match request
    case Discover =>
      var offered := pool.PeekIp(now);
      e := Discovered(now, offered);
    case RequestFor(ip) =>
      var ok := false;
      if pool.params.poolStart <= ip <= pool.params.poolEnd {
        pool.InMemory(pool.cur);
        ok := pool.CommitIp(ip);
      }
      e := if ok then Acked(now, ip) else Nacked(now, ip);
  }
}
