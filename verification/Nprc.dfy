/** The NPRC backend: addresses are offered in order and remembered only in a
    sliding window of acknowledgement bits. */
module Nprc {
  import opened Wrappers

  /** The window: `base` addresses lie below it, `next` of its slots are offered,
      and bit 0 is the lowest. */
  datatype Window = Window(base: uint32, next: nat, bits: seq<bool>)

  /** A pool: window width, first and last address. `next` is an 8-bit counter. */
  datatype Params = Params(width: nat, poolStart: uint32, poolEnd: uint32) {
    predicate Valid() {
      0 < width <= 255 && width % 4 == 0
    }

    function Flush(): nat {
      width / 4
    }
  }

  function ShiftRight(bits: seq<bool>, k: nat): (r: seq<bool>)
    requires k <= |bits|
    ensures |r| == |bits|
    ensures forall i | 0 <= i < |bits| :: r[i] == (i + k < |bits| && bits[i + k])
  {
    bits[k..] + seq(k, _ => false)
  }

  function Empty(width: nat): Window {
    Window(0, 0, seq(width, _ => false))
  }

  predicate Shaped(ps: Params, w: Window) {
    ps.Valid() && |w.bits| == ps.width && w.next <= ps.width
  }

  /** A window whose slots are all offered makes room by dropping its oldest quarter. */
  function Flushed(ps: Params, w: Window): (r: Window)
    requires Shaped(ps, w)
    ensures Shaped(ps, r) && r.next < ps.width
  {
    var f := ps.Flush();
    if w.next >= ps.width then Window(Wrap(w.base + f), w.next - f, ShiftRight(w.bits, f)) else w
  }

  /** A DISCOVER: the new window and the offered address, 0 for none. */
  function Offer(ps: Params, w: Window): (r: (Window, uint32))
    requires Shaped(ps, w)
    ensures Shaped(ps, r.0)
  {
    var w1 := Flushed(ps, w);
    var ip := Wrap(ps.poolStart + w1.base + w1.next);
    if ip > ps.poolEnd then (w1, 0) else (w1.(next := w1.next + 1), ip)
  }

  /** Drops the acknowledged slots at the low end of the window. */
  function Slide(w: Window): (r: Window)
    requires |w.bits| > 0
    ensures |r.bits| == |w.bits| && r.next <= w.next
    decreases w.next
  {
    if w.bits[0] && w.next > 0 then Slide(Window(Wrap(w.base + 1), w.next - 1, ShiftRight(w.bits, 1))) else w
  }

  /** A REQUEST for `ip`: the new window and whether it is acknowledged. */
  function Commit(ps: Params, w: Window, ip: uint32): (r: (Window, bool))
    requires Shaped(ps, w)
    ensures Shaped(ps, r.0)
  {
    var low := Wrap(ps.poolStart + w.base);
    var high := Min(Wrap(ps.poolStart + w.base + w.next - 1), ps.poolEnd);
    var offset := Wrap(ip - ps.poolStart - w.base);
    if low <= ip <= high && offset < ps.width && !w.bits[offset] then
      (Slide(w.(bits := w.bits[offset := true])), true)
    else (w, false)
  }

  /** The pool object. */
  class NprcPool {
    const params: Params
    var cacheBase: uint32
    var offerNext: nat
    var ackBitmap: seq<bool>

    ghost function View(): Window
      reads this
    {
      Window(cacheBase, offerNext, ackBitmap)
    }

    ghost predicate Valid()
      reads this
    {
      Shaped(params, View())
    }

    constructor (params: Params)
      requires params.Valid()
      ensures Valid() && this.params == params && View() == Empty(params.width)
    {
      this.params := params;
      cacheBase, offerNext, ackBitmap := 0, 0, seq(params.width, _ => false);
    }

    method FindAvailableIp() returns (ip: uint32)
      requires Valid()
      modifies this
      ensures Valid() && (View(), ip) == Offer(params, old(View()))
    {
      if offerNext >= params.width {
        ackBitmap := ShiftRight(ackBitmap, params.Flush());
        cacheBase := Wrap(cacheBase + params.Flush());
        offerNext := offerNext - params.Flush();
      }
      ip := Wrap(params.poolStart + cacheBase + offerNext);
      if ip > params.poolEnd {
        return 0;
      }
      offerNext := offerNext + 1;
    }

    method CommitIp(ip: uint32) returns (ok: bool)
      requires Valid()
      modifies this
      ensures Valid() && (View(), ok) == Commit(params, old(View()), ip)
    {
      var low := Wrap(params.poolStart + cacheBase);
      var high := Wrap(params.poolStart + cacheBase + offerNext - 1);
      if high > params.poolEnd {
        high := params.poolEnd;
      }
      ok := false;
      if low <= ip <= high {
        var offset := Wrap(ip - params.poolStart - cacheBase);
        if offset < params.width && !ackBitmap[offset] {
          ackBitmap := ackBitmap[offset := true];
          CleanSpots();
          ok := true;
        }
      }
    }

    /** Moves the window past as many acknowledged slots as possible. */
    method CleanSpots()
      requires Valid()
      modifies this
      ensures Valid() && View() == Slide(old(View()))
    {
      while ackBitmap[0] && offerNext > 0
        invariant Valid() && Slide(View()) == Slide(old(View()))
        decreases offerNext
      {
        ackBitmap := ShiftRight(ackBitmap, 1);
        cacheBase := Wrap(cacheBase + 1);
        offerNext := offerNext - 1;
      }
    }
  }

  // ----- Runs --------------------------------------------------------------

  /** A handled message with its outcome. */
  datatype Event = Discovered(offered: uint32) | Requested(ip: uint32, acked: bool)

  ghost predicate Step(ps: Params, w: Window, e: Event, w': Window) {
    && Shaped(ps, w)
    && match e
       case Discovered(ip) => Offer(ps, w) == (w', ip)
       case Requested(ip, ok) => Commit(ps, w, ip) == (w', ok)
  }

  datatype Request = Discover | RequestFor(ip: uint32)

  /** Handles one message. */
  method Process(pool: NprcPool, request: Request) returns (e: Event)
    requires pool.Valid()
    modifies pool
    ensures pool.Valid() && Step(pool.params, old(pool.View()), e, pool.View())
    ensures (request.Discover? <==> e.Discovered?) && (request.RequestFor? ==> e.ip == request.ip)
  {
    match request
    case Discover =>
      var offered := pool.FindAvailableIp();
      e := Discovered(offered);
    case RequestFor(ip) =>
      var ok := pool.CommitIp(ip);
      e := Requested(ip, ok);
  }

  ghost predicate StepAt(ps: Params, states: seq<Window>, log: seq<Event>, i: nat)
    requires i < |log| < |states|
  {
    Step(ps, states[i], log[i], states[i + 1])
  }

  ghost predicate IsRun(ps: Params, states: seq<Window>, log: seq<Event>) {
    && ps.Valid()
    && |states| == |log| + 1
    && states[0] == Empty(ps.width)
    && forall i | 0 <= i < |log| :: StepAt(ps, states, log, i)
  }

  /** What happened so far, in offer numbers: how many offers were made, which were
      acknowledged, which were dropped unacknowledged, and the lowest that is remembered. */
  datatype History = History(offers: nat, acked: set<nat>, dropped: set<nat>, low: nat)

  /** The lowest number from `j` on that was not acknowledged, or `n`. */
  function FirstOpen(acked: set<nat>, j: nat, n: nat): (r: nat)
    ensures j <= n ==> j <= r <= n
    ensures r < n ==> r !in acked
    ensures forall i | j <= i < r :: i in acked
    decreases n - j
  {
    if j >= n || j !in acked then j else FirstOpen(acked, j + 1, n)
  }

  /** The unacknowledged offers among the oldest quarter of a window. */
  function Oldest(ps: Params, h: History): set<nat> {
    set j: nat | h.low <= j < h.low + ps.width / 4 && j !in h.acked
  }

  /** When a whole window of offers is remembered, the next DISCOVER forgets the oldest
      quarter, refused or not. */
  function Forgotten(ps: Params, h: History): History {
    if h.offers - h.low >= ps.width then h.(dropped := h.dropped + Oldest(ps, h), low := h.low + ps.width / 4) else h
  }

  /** History told from the messages and answers alone. */
  function Record(ps: Params, h: History, e: Event): History {
    match e
    case Discovered(ip) => var h1 := Forgotten(ps, h); if ip == 0 then h1 else h1.(offers := h1.offers + 1)
    case Requested(ip, ok) =>
      if ok && ip >= ps.poolStart then
        var acked := h.acked + {ip - ps.poolStart};
        h.(acked := acked, low := FirstOpen(acked, h.low, h.offers))
      else h
  }

  /** The history of the first `k` messages. */
  function HistoryOf(ps: Params, log: seq<Event>, k: nat): History
    requires k <= |log|
  {
    if k == 0 then History(0, {}, {}, 0) else Record(ps, HistoryOf(ps, log, k - 1), log[k - 1])
  }

  /** Pools whose arithmetic does not wrap. */
  predicate Tame(ps: Params) {
    ps.Valid() && 0 < ps.poolStart && ps.poolEnd < TWO_32 - 1
  }

  /** The window agrees with the history: the bits tell which of the last `next`
      offers were acknowledged; below the window lie exactly offers that were
      acknowledged or dropped; and offers are dropped only when old. */
  ghost predicate Inv(ps: Params, w: Window, h: History) {
    && Shaped(ps, w)
    && w.base == h.low && w.base + w.next == h.offers
    && (h.offers == 0 || ps.poolStart + h.offers - 1 <= ps.poolEnd)
    && (forall j | j in h.acked :: j < h.offers)
    && (forall i | 0 <= i < ps.width :: w.bits[i] <==> w.base + i in h.acked)
    && (forall j | j in h.dropped :: j < w.base && j !in h.acked && j + 3 * ps.Flush() < h.offers)
    && (forall j: nat | j < w.base :: j in h.acked || j in h.dropped)
  }

  lemma FlushKeepsInv(ps: Params, w: Window, h: History)
    requires Tame(ps) && Inv(ps, w, h)
    ensures Inv(ps, Flushed(ps, w), Forgotten(ps, h))
  {
    if w.next >= ps.width {
      var w1, f := Flushed(ps, w), ps.Flush();
      assert ps.width == 4 * f && w1.base == w.base + f;
      forall i | 0 <= i < ps.width ensures w1.bits[i] <==> w1.base + i in h.acked {
        if i + f < ps.width { assert w.bits[i + f] <==> w.base + (i + f) in h.acked; }
      }
    }
  }

  lemma BumpKeepsInv(ps: Params, w: Window, h: History)
    requires Tame(ps) && Inv(ps, w, h) && w.next < ps.width && ps.poolStart + h.offers <= ps.poolEnd
    ensures Inv(ps, w.(next := w.next + 1), h.(offers := h.offers + 1))
  {
  }

  /** The next offer is the address after the last one, until the pool is used up. */
  lemma OfferKeepsInv(ps: Params, w: Window, h: History)
    requires Tame(ps) && Inv(ps, w, h)
    ensures var (w', ip) := Offer(ps, w);
            && ip == (if ps.poolStart + h.offers <= ps.poolEnd then ps.poolStart + h.offers else 0)
            && Inv(ps, w', Record(ps, h, Discovered(ip)))
  {
    FlushKeepsInv(ps, w, h);
    OfferIs(ps, w, h);
    if ps.poolStart + h.offers <= ps.poolEnd {
      BumpKeepsInv(ps, Flushed(ps, w), Forgotten(ps, h));
    }
  }

  lemma OfferIs(ps: Params, w: Window, h: History)
    requires Tame(ps) && Inv(ps, w, h)
    ensures var w1 := Flushed(ps, w);
            Offer(ps, w) == if ps.poolStart + h.offers <= ps.poolEnd
                            then (w1.(next := w1.next + 1), ps.poolStart + h.offers) else (w1, 0)
  {
    FlushKeepsInv(ps, w, h);
    InvCounts(ps, Flushed(ps, w), Forgotten(ps, h));
  }

  lemma InvCounts(ps: Params, w: Window, h: History)
    requires Tame(ps) && Inv(ps, w, h)
    ensures Wrap(ps.poolStart + w.base + w.next) == ps.poolStart + h.offers
  {
  }

  lemma {:induction false} SlideKeepsInv(ps: Params, w: Window, h: History)
    requires Tame(ps) && Inv(ps, w, h)
    ensures Inv(ps, Slide(w), h.(low := FirstOpen(h.acked, h.low, h.offers)))
    decreases w.next
  {
    if w.bits[0] && w.next > 0 {
      assert w.base + 0 in h.acked;
      var w1 := Window(Wrap(w.base + 1), w.next - 1, ShiftRight(w.bits, 1));
      forall i | 0 <= i < ps.width ensures w1.bits[i] <==> w1.base + i in h.acked {
        if i + 1 < ps.width { assert w.bits[i + 1] <==> w.base + (i + 1) in h.acked; }
      }
      SlideKeepsInv(ps, w1, h.(low := w1.base));
    }
  }

  /** A request is acknowledged exactly for an offered address that is neither
      acknowledged yet nor below the window. */
  lemma CommitVerdict(ps: Params, w: Window, h: History, ip: uint32)
    requires Tame(ps) && Inv(ps, w, h)
    ensures Commit(ps, w, ip).1 <==>
              ps.poolStart + w.base <= ip < ps.poolStart + h.offers && ip - ps.poolStart !in h.acked
  {
    var k := ip - ps.poolStart - w.base;
    assert Wrap(ps.poolStart + w.base + w.next - 1) == ps.poolStart + h.offers - 1;
    if 0 <= k < ps.width {
      assert w.bits[k] <==> w.base + k in h.acked;
    }
  }

  lemma CommitKeepsInv(ps: Params, w: Window, h: History, ip: uint32)
    requires Tame(ps) && Inv(ps, w, h)
    ensures var (w', ok) := Commit(ps, w, ip); Inv(ps, w', Record(ps, h, Requested(ip, ok)))
  {
    CommitVerdict(ps, w, h, ip);
    if Commit(ps, w, ip).1 {
      var k := ip - ps.poolStart;
      MarkKeepsInv(ps, w, h, k);
      SlideKeepsInv(ps, w.(bits := w.bits[k - w.base := true]), h.(acked := h.acked + {k}));
    }
  }

  lemma MarkKeepsInv(ps: Params, w: Window, h: History, k: nat)
    requires Tame(ps) && Inv(ps, w, h) && w.base <= k < h.offers
    ensures Inv(ps, w.(bits := w.bits[k - w.base := true]), h.(acked := h.acked + {k}))
  {
  }

  // ----- Whole runs --------------------------------------------------------

  lemma {:induction false} RunInv(ps: Params, states: seq<Window>, log: seq<Event>, k: nat)
    requires Tame(ps) && IsRun(ps, states, log) && k <= |log|
    ensures Inv(ps, states[k], HistoryOf(ps, log, k))
  {
    if k > 0 {
      RunInv(ps, states, log, k - 1);
      assert StepAt(ps, states, log, k - 1);
      var h := HistoryOf(ps, log, k - 1);
      match log[k - 1]
      case Discovered(ip) => OfferKeepsInv(ps, states[k - 1], h);
      case Requested(ip, ok) => CommitKeepsInv(ps, states[k - 1], h, ip);
    }
  }

  /** Whatever requests, slides and flushes are interleaved, the k-th successful
      offer is the k-th pool address, and offers fail only when all were made. */
  lemma OffersAreConsecutive(ps: Params, states: seq<Window>, log: seq<Event>, k: nat)
    requires Tame(ps) && IsRun(ps, states, log) && k < |log| && log[k].Discovered?
    ensures var n := HistoryOf(ps, log, k).offers;
            if log[k].offered != 0 then log[k].offered == ps.poolStart + n <= ps.poolEnd
            else ps.poolStart + n > ps.poolEnd
  {
    RunInv(ps, states, log, k);
    assert StepAt(ps, states, log, k);
    OfferKeepsInv(ps, states[k], HistoryOf(ps, log, k));
  }

  lemma {:induction false} HistoryGrows(ps: Params, log: seq<Event>, i: nat, j: nat)
    requires i <= j <= |log|
    ensures HistoryOf(ps, log, i).offers <= HistoryOf(ps, log, j).offers
    ensures HistoryOf(ps, log, i).acked <= HistoryOf(ps, log, j).acked
    ensures HistoryOf(ps, log, i).dropped <= HistoryOf(ps, log, j).dropped
    decreases j
  {
    if i < j {
      HistoryGrows(ps, log, i, j - 1);
    }
  }

  /** Once an offer failed, all later ones fail. */
  lemma OffersStopForGood(ps: Params, states: seq<Window>, log: seq<Event>, i: nat, j: nat)
    requires Tame(ps) && IsRun(ps, states, log) && i < j < |log|
    requires log[i] == Discovered(0) && log[j].Discovered?
    ensures log[j] == Discovered(0)
  {
    OffersAreConsecutive(ps, states, log, i);
    OffersAreConsecutive(ps, states, log, j);
    HistoryGrows(ps, log, i, j);
  }

  lemma {:induction false} OfferNumberWasMade(ps: Params, states: seq<Window>, log: seq<Event>, k: nat, n: nat)
    returns (i: nat)
    requires Tame(ps) && IsRun(ps, states, log) && k <= |log| && n < HistoryOf(ps, log, k).offers
    ensures i < k && log[i].Discovered? && log[i].offered == ps.poolStart + n
    decreases k
  {
    if n < HistoryOf(ps, log, k - 1).offers {
      i := OfferNumberWasMade(ps, states, log, k - 1, n);
    } else {
      i := k - 1;
      OffersAreConsecutive(ps, states, log, i);
    }
  }

  /** Every acknowledged address was offered before, and none is acknowledged twice. */
  lemma AcksFollowOffers(ps: Params, states: seq<Window>, log: seq<Event>, k: nat, ip: uint32)
    requires Tame(ps) && IsRun(ps, states, log) && k < |log| && log[k] == Requested(ip, true)
    ensures exists i :: 0 <= i < k && log[i] == Discovered(ip)
    ensures forall i | 0 <= i < k :: log[i] != Requested(ip, true)
  {
    var h := HistoryOf(ps, log, k);
    RunInv(ps, states, log, k);
    assert StepAt(ps, states, log, k);
    CommitVerdict(ps, states[k], h, ip);
    var i0 := OfferNumberWasMade(ps, states, log, k, ip - ps.poolStart);
    forall i | 0 <= i < k ensures log[i] != Requested(ip, true) {
      if log[i] == Requested(ip, true) {
        AckIsKept(ps, log, i, k, ip);
      }
    }
  }

  lemma AckIsKept(ps: Params, log: seq<Event>, i: nat, k: nat, ip: uint32)
    requires i < k <= |log| && log[i] == Requested(ip, true) && ip >= ps.poolStart
    ensures ip - ps.poolStart in HistoryOf(ps, log, k).acked
  {
    HistoryGrows(ps, log, i + 1, k);
  }

  /** A request for the address of offer `n` would be acknowledged. */
  ghost predicate Claimable(ps: Params, w: Window, n: nat) {
    Shaped(ps, w) && ps.poolStart + n < TWO_32 && Commit(ps, w, ps.poolStart + n).1
  }

  lemma YoungIsClaimable(ps: Params, w: Window, h: History, n: nat)
    requires Tame(ps) && Inv(ps, w, h)
    requires n < h.offers && n !in h.acked && 4 * (h.offers - n - 1) < 3 * ps.width
    ensures Claimable(ps, w, n)
  {
    assert n !in h.dropped;
    CommitVerdict(ps, w, h, ps.poolStart + n);
  }

  /** An offer that was not acknowledged can be until at least 3/4 of a window of
      later offers were made. */
  lemma ClaimWindow(ps: Params, states: seq<Window>, log: seq<Event>, k: nat, n: nat)
    requires Tame(ps) && IsRun(ps, states, log) && k <= |log|
    requires var h := HistoryOf(ps, log, k);
             n < h.offers && n !in h.acked && 4 * (h.offers - n - 1) < 3 * ps.width
    ensures Claimable(ps, states[k], n)
  {
    RunInv(ps, states, log, k);
    YoungIsClaimable(ps, states[k], HistoryOf(ps, log, k), n);
  }

  /** The window after `n` offers and nothing else. */
  lemma {:induction false} DiscoverRun(ps: Params, n: nat) returns (states: seq<Window>, log: seq<Event>)
    requires Tame(ps) && n <= ps.width && ps.poolStart + n - 1 <= ps.poolEnd
    ensures IsRun(ps, states, log) && |log| == n && states[n] == Empty(ps.width).(next := n)
    ensures forall i | 0 <= i < n :: log[i] == Discovered(ps.poolStart + i)
  {
    if n == 0 {
      states, log := [Empty(ps.width)], [];
    } else {
      var states0, log0 := DiscoverRun(ps, n - 1);
      var (w', ip) := Offer(ps, states0[n - 1]);
      states, log := states0 + [w'], log0 + [Discovered(ip)];
      assert StepAt(ps, states, log, n - 1);
      ExtendRun(ps, states0, log0, w', Discovered(ip));
    }
  }

  /** The bound is exact, for every width: in a pool of as many addresses as the window
      has slots, the refused DISCOVER after the last offer drops an offer with exactly
      3/4 of a window of offers after it. */
  lemma ClaimWindowIsExact(ps: Params) returns (states: seq<Window>, log: seq<Event>)
    requires Tame(ps) && ps.poolEnd == ps.poolStart + ps.width - 1
    ensures IsRun(ps, states, log) && log != []
    ensures var h, n := HistoryOf(ps, log, |log|), ps.Flush() - 1;
            && n < h.offers && n !in h.acked && 4 * (h.offers - n - 1) == 3 * ps.width
            && log[|log| - 1] == Discovered(0) && !Claimable(ps, states[|log|], n)
  {
    var w, n := ps.width, ps.Flush() - 1;
    var states0, log0 := DiscoverRun(ps, w);
    var (w', ip) := Offer(ps, states0[w]);
    states, log := states0 + [w'], log0 + [Discovered(ip)];
    assert StepAt(ps, states, log, w);
    ExtendRun(ps, states0, log0, w', Discovered(ip));
    RunInv(ps, states, log, w);
    OffersAreConsecutive(ps, states, log, w);
    NothingAcked(ps, log, w);
    assert n in HistoryOf(ps, log, w + 1).dropped;
    DroppedIsLost(ps, states, log, w + 1, w + 1, n);
  }

  lemma {:induction false} NothingAcked(ps: Params, log: seq<Event>, k: nat)
    requires k <= |log| && forall i | 0 <= i < k :: log[i].Discovered?
    ensures HistoryOf(ps, log, k).acked == {}
  {
    if k > 0 {
      NothingAcked(ps, log, k - 1);
    }
  }

  /** A dropped offer is lost, and never turns up among the acknowledged ones. */
  lemma DroppedIsLost(ps: Params, states: seq<Window>, log: seq<Event>, i: nat, k: nat, n: nat)
    requires Tame(ps) && IsRun(ps, states, log) && i <= k <= |log| && n in HistoryOf(ps, log, i).dropped
    ensures n !in HistoryOf(ps, log, k).acked && !Claimable(ps, states[k], n)
  {
    HistoryGrows(ps, log, i, k);
    RunInv(ps, states, log, k);
    if ps.poolStart + n < TWO_32 {
      CommitVerdict(ps, states[k], HistoryOf(ps, log, k), ps.poolStart + n);
    }
  }

  /** Over whole runs, a request that is acknowledged moves the window past every
      acknowledged offer at its low end: the window then starts at an unacknowledged offer
      or has none left, and everything below it is acknowledged or dropped. */
  lemma AckMovesWindow(ps: Params, states: seq<Window>, log: seq<Event>, k: nat, ip: uint32)
    requires Tame(ps) && IsRun(ps, states, log) && k < |log| && log[k] == Requested(ip, true)
    ensures var h, base := HistoryOf(ps, log, k + 1), states[k + 1].base;
            && (base == h.offers || (base < h.offers && base !in h.acked))
            && forall j: nat | j < base :: j in h.acked || j in h.dropped
  {
    RunInv(ps, states, log, k + 1);
    RunInv(ps, states, log, k);
    assert StepAt(ps, states, log, k);
    CommitVerdict(ps, states[k], HistoryOf(ps, log, k), ip);
  }

  /** Exactly when an offer is dropped, told from the messages and answers alone: a DISCOVER
      that finds a whole window of offers made since the lowest remembered one drops those
      of the oldest quarter that were not acknowledged. No other message drops any. */
  lemma DroppedExactlyWhen(ps: Params, states: seq<Window>, log: seq<Event>, k: nat, n: nat)
    requires Tame(ps) && IsRun(ps, states, log) && k < |log| && n < HistoryOf(ps, log, k).offers
    ensures var h := HistoryOf(ps, log, k);
            Claimable(ps, states[k], n) && !Claimable(ps, states[k + 1], n)
            && log[k] != Requested(ps.poolStart + n, true)
            <==> log[k].Discovered? && h.offers == h.low + ps.width && n !in h.acked
                 && h.low <= n && 4 * (n - h.low) < ps.width
  {
    var h := HistoryOf(ps, log, k);
    RunClaimable(ps, states, log, k, n);
    HistoryGrows(ps, log, k, k + 1);
    RunClaimable(ps, states, log, k + 1, n);
    if log[k].Requested? && log[k].acked {
      AckIsInPool(ps, states, log, k);
    }
    RecordDrops(ps, h, log[k], n);
    assert HistoryOf(ps, log, k + 1) == Record(ps, h, log[k]);
  }

  lemma RunClaimable(ps: Params, states: seq<Window>, log: seq<Event>, k: nat, n: nat)
    requires Tame(ps) && IsRun(ps, states, log) && k <= |log| && n < HistoryOf(ps, log, k).offers
    ensures var h := HistoryOf(ps, log, k);
            && (Claimable(ps, states[k], n) <==> Open(h, n)) && ps.poolStart + n < TWO_32
            && (h.low <= n ==> n !in h.dropped) && h.offers - h.low <= ps.width
  {
    RunInv(ps, states, log, k);
    ClaimableIff(ps, states[k], HistoryOf(ps, log, k), n);
  }

  lemma AckIsInPool(ps: Params, states: seq<Window>, log: seq<Event>, k: nat)
    requires Tame(ps) && IsRun(ps, states, log) && k < |log| && log[k].Requested? && log[k].acked
    ensures log[k].ip >= ps.poolStart
  {
    RunInv(ps, states, log, k);
    assert StepAt(ps, states, log, k);
    CommitVerdict(ps, states[k], HistoryOf(ps, log, k), log[k].ip);
  }

  ghost predicate Open(h: History, n: nat) {
    n !in h.acked && n !in h.dropped
  }

  lemma RecordDrops(ps: Params, h: History, e: Event, n: nat)
    requires ps.Valid() && h.offers - h.low <= ps.width && (h.low <= n ==> n !in h.dropped)
    requires e.Requested? && e.acked ==> e.ip >= ps.poolStart
    requires ps.poolStart + n < TWO_32
    ensures Open(h, n) && !Open(Record(ps, h, e), n) && e != Requested(ps.poolStart + n, true)
            <==> e.Discovered? && h.offers == h.low + ps.width && n !in h.acked
                 && h.low <= n && 4 * (n - h.low) < ps.width
  {
  }

  /** Claimable are the offers that are neither acknowledged nor dropped. */
  lemma ClaimableIff(ps: Params, w: Window, h: History, n: nat)
    requires Tame(ps) && Inv(ps, w, h) && n < h.offers
    ensures Claimable(ps, w, n) <==> Open(h, n)
  {
    CommitVerdict(ps, w, h, ps.poolStart + n);
  }

  /** The offers that may still be acknowledged. */
  function Pending(w: Window, h: History): set<nat> {
    set j: nat | w.base <= j < h.offers && j !in h.acked
  }

  function NatsBelow(n: nat): (r: set<nat>)
    ensures forall j: nat :: j in r <==> j < n
    ensures |r| == n
  {
    if n == 0 then {} else NatsBelow(n - 1) + {n - 1}
  }

  lemma InvPartitions(ps: Params, w: Window, h: History)
    requires Tame(ps) && Inv(ps, w, h)
    ensures h.acked !! h.dropped !! Pending(w, h)
    ensures |h.acked| + |h.dropped| + |Pending(w, h)| == h.offers
    ensures forall j: nat | j < h.offers && j !in h.acked :: j < w.base <==> j in h.dropped
  {
    var p := Pending(w, h);
    assert h.acked + h.dropped + p == NatsBelow(h.offers);
    assert |h.acked + h.dropped| == |h.acked| + |h.dropped|;
    assert |h.acked + h.dropped + p| == |h.acked + h.dropped| + |p|;
  }

  /** Conservation: acknowledged, pending and dropped offers are disjoint and
      together are all offers made; below the window lie exactly the dropped ones
      and some acknowledged ones. */
  lemma OffersAreConserved(ps: Params, states: seq<Window>, log: seq<Event>, k: nat)
    requires Tame(ps) && IsRun(ps, states, log) && k <= |log|
    ensures var h := HistoryOf(ps, log, k);
            && h.acked !! h.dropped !! Pending(states[k], h)
            && |h.acked| + |h.dropped| + |Pending(states[k], h)| == h.offers
            && forall j: nat | j < h.offers && j !in h.acked :: j < states[k].base <==> j in h.dropped
  {
    RunInv(ps, states, log, k);
    InvPartitions(ps, states[k], HistoryOf(ps, log, k));
  }

  /** A REQUEST that directly follows the offer is acknowledged. */
  lemma OfferIsHonoured(ps: Params, states: seq<Window>, log: seq<Event>, k: nat, ip: uint32)
    requires Tame(ps) && IsRun(ps, states, log) && k < |log| && log[k] == Discovered(ip) && ip != 0
    ensures ip >= ps.poolStart && Claimable(ps, states[k + 1], ip - ps.poolStart)
  {
    OffersAreConsecutive(ps, states, log, k);
    RunInv(ps, states, log, k);
    RunInv(ps, states, log, k + 1);
    assert StepAt(ps, states, log, k);
    CommitVerdict(ps, states[k + 1], HistoryOf(ps, log, k + 1), ip);
  }

  // ----- When the promises hold --------------------------------------------

  /** Every offer lies in the pool and no address is offered twice. */
  ghost predicate GoodOffers(ps: Params, log: seq<Event>) {
    && (forall j | 0 <= j < |log| && log[j].Discovered? && log[j].offered != 0 ::
          ps.poolStart <= log[j].offered <= ps.poolEnd)
    && (forall i, j | 0 <= i < j < |log| && log[i].Discovered? && log[j].Discovered? && log[j].offered != 0 ::
          log[i].offered != log[j].offered)
  }

  /** Every acknowledged address was offered before. */
  ghost predicate GoodAcks(log: seq<Event>) {
    forall k | 0 <= k < |log| && log[k].Requested? && log[k].acked ::
      exists i :: 0 <= i < k && log[i] == Discovered(log[k].ip)
  }

  ghost predicate OffersAreSound(ps: Params) {
    forall states: seq<Window>, log: seq<Event> | IsRun(ps, states, log) :: GoodOffers(ps, log)
  }

  ghost predicate AcksAreSound(ps: Params) {
    forall states: seq<Window>, log: seq<Event> | IsRun(ps, states, log) :: GoodAcks(log)
  }

  lemma ExtendRun(ps: Params, states: seq<Window>, log: seq<Event>, w: Window, e: Event)
    requires IsRun(ps, states, log) && StepAt(ps, states + [w], log + [e], |log|)
    ensures IsRun(ps, states + [w], log + [e])
  {
    var states', log' := states + [w], log + [e];
    forall i | 0 <= i < |log'| ensures StepAt(ps, states', log', i) {
      if i < |log| { assert StepAt(ps, states, log, i); }
    }
  }

  /** The number of offers the window stands for does not wrap. */
  ghost predicate Counted(ps: Params, w: Window) {
    Shaped(ps, w) && (w.base + w.next == 0 || ps.poolStart + w.base + w.next <= ps.poolEnd + 1)
  }

  lemma {:induction false} SlideKeepsCount(ps: Params, w: Window)
    requires Counted(ps, w) && ps.poolEnd < TWO_32 - 1
    ensures Counted(ps, Slide(w)) && Slide(w).base + Slide(w).next == w.base + w.next
    decreases w.next
  {
    if w.bits[0] && w.next > 0 {
      SlideKeepsCount(ps, Window(Wrap(w.base + 1), w.next - 1, ShiftRight(w.bits, 1)));
    }
  }

  /** Requests keep the count, whatever they acknowledge; a DISCOVER offers the address
      at the count, and adds one, until the pool is used up. */
  lemma StepCounts(ps: Params, w: Window, e: Event, w': Window)
    requires Counted(ps, w) && ps.poolEnd < TWO_32 - 1 && Step(ps, w, e, w')
    ensures Counted(ps, w')
    ensures var n, n' := w.base + w.next, w'.base + w'.next;
            if e.Discovered? && ps.poolStart + n <= ps.poolEnd then n' == n + 1 && e.offered == ps.poolStart + n
            else n' == n && (e.Discovered? ==> e.offered == 0)
  {
    match e
    case Discovered(ip) =>
      var w1 := Flushed(ps, w);
      assert w1.base + w1.next == w.base + w.next;
    case Requested(ip, ok) =>
      if ok {
        SlideKeepsCount(ps, w.(bits := w.bits[Wrap(ip - ps.poolStart - w.base) := true]));
      }
  }

  lemma {:induction false} CountGrows(ps: Params, states: seq<Window>, log: seq<Event>, i: nat, j: nat)
    requires IsRun(ps, states, log) && ps.poolEnd < TWO_32 - 1 && i <= j <= |log|
    ensures Counted(ps, states[i]) && Counted(ps, states[j])
    ensures states[i].base + states[i].next <= states[j].base + states[j].next
    decreases j
  {
    if j > 0 {
      CountGrows(ps, states, log, if i < j then i else i - 1, j - 1);
      assert StepAt(ps, states, log, j - 1);
      StepCounts(ps, states[j - 1], log[j - 1], states[j]);
    }
  }

  lemma OffersGoodBelowEnd(ps: Params, states: seq<Window>, log: seq<Event>)
    requires IsRun(ps, states, log) && ps.poolEnd < TWO_32 - 1
    ensures GoodOffers(ps, log)
  {
    forall j | 0 <= j < |log| && log[j].Discovered? && log[j].offered != 0
      ensures log[j].offered == ps.poolStart + states[j].base + states[j].next <= ps.poolEnd
    {
      CountGrows(ps, states, log, j, j);
      assert StepAt(ps, states, log, j);
      StepCounts(ps, states[j], log[j], states[j + 1]);
    }
    forall i, j | 0 <= i < j < |log| && log[i].Discovered? && log[j].Discovered? && log[j].offered != 0
      ensures log[i].offered != log[j].offered
    {
      CountGrows(ps, states, log, i, i);
      assert StepAt(ps, states, log, i);
      StepCounts(ps, states[i], log[i], states[i + 1]);
      CountGrows(ps, states, log, i + 1, j);
    }
  }

  /** In a pool that ends at the last 32-bit address every offer succeeds. */
  lemma OfferWraps(ps: Params, w: Window, n: nat)
    requires Shaped(ps, w) && ps.poolEnd == TWO_32 - 1 && Wrap(w.base + w.next) == Wrap(n)
    ensures var (w', ip) := Offer(ps, w); ip == Wrap(ps.poolStart + n) && Wrap(w'.base + w'.next) == Wrap(n + 1)
  {
    var w1 := Flushed(ps, w);
    WrapAdd(w.base + ps.Flush(), w.next - ps.Flush());
    assert Wrap(w1.base + w1.next) == Wrap(n);
    WrapSameAdd(w1.base + w1.next, n, ps.poolStart);
    WrapSameAdd(w1.base + w1.next, n, 1);
    assert ps.poolStart + w1.base + w1.next == w1.base + w1.next + ps.poolStart;
  }

  /** A run of `n` DISCOVER messages on such a pool: the offers wrap to 0, 1, ... */
  lemma {:induction false} EndlessOffers(ps: Params, n: nat) returns (states: seq<Window>, log: seq<Event>)
    requires ps.Valid() && ps.poolEnd == TWO_32 - 1
    ensures IsRun(ps, states, log) && |log| == n
    ensures Shaped(ps, states[n]) && Wrap(states[n].base + states[n].next) == Wrap(n)
    ensures forall i | 0 <= i < n :: log[i] == Discovered(Wrap(ps.poolStart + i))
  {
    if n == 0 {
      states, log := [Empty(ps.width)], [];
    } else {
      var states0, log0 := EndlessOffers(ps, n - 1);
      var (w', ip) := Offer(ps, states0[n - 1]);
      OfferWraps(ps, states0[n - 1], n - 1);
      states, log := states0 + [w'], log0 + [Discovered(ip)];
      assert StepAt(ps, states, log, n - 1);
      ExtendRun(ps, states0, log0, w', Discovered(ip));
    }
  }

  /** Exactly: offers stay in the pool and are never repeated if and only if the pool
      does not reach the last 32-bit address. */
  lemma OffersSoundIff(ps: Params)
    requires ps.Valid()
    ensures OffersAreSound(ps) <==> ps.poolEnd < TWO_32 - 1
  {
    if ps.poolEnd < TWO_32 - 1 {
      forall states, log | IsRun(ps, states, log) ensures GoodOffers(ps, log) {
        OffersGoodBelowEnd(ps, states, log);
      }
    } else {
      var states, log := EndlessOffers(ps, TWO_32 + 2);
      var i := if ps.poolStart == 0 then 1 else 0;
      assert Wrap(ps.poolStart + i) == ps.poolStart + i == Wrap(ps.poolStart + (i + TWO_32));
      assert log[i] == Discovered(ps.poolStart + i) && log[i + TWO_32] == Discovered(ps.poolStart + i);
    }
  }

  /** Offer and acknowledgement in turn move an empty window on by one address. */
  lemma TurnMovesOn(ps: Params, base: uint32)
    requires ps.Valid() && ps.poolEnd == TWO_32 - 1 && ps.poolStart + base < TWO_32
    ensures var w, ip := Empty(ps.width).(base := base), ps.poolStart + base;
            && Offer(ps, w) == (w.(next := 1), ip)
            && Commit(ps, w.(next := 1), ip) == (w.(base := Wrap(base + 1)), true)
  {
    var w, ip := Empty(ps.width).(base := base), ps.poolStart + base;
    var marked := Window(base, 1, w.bits[0 := true]);
    var moved := Window(Wrap(base + 1), 0, ShiftRight(marked.bits, 1));
    assert moved.bits == w.bits;
    assert Slide(marked) == Slide(moved) == moved;
  }

  lemma {:induction false} TurnsRun(ps: Params, n: nat) returns (states: seq<Window>, log: seq<Event>)
    requires ps.Valid() && 0 < ps.poolStart && ps.poolEnd == TWO_32 - 1 && ps.poolStart + n <= TWO_32
    ensures IsRun(ps, states, log) && states[|log|] == Empty(ps.width).(base := n)
    ensures forall i | 0 <= i < |log| :: log[i] != Discovered(0)
  {
    if n == 0 {
      states, log := [Empty(ps.width)], [];
    } else {
      states, log := TurnsRun(ps, n - 1);
      TurnMovesOn(ps, n - 1);
      var w, ip := states[|log|], ps.poolStart + n - 1;
      states, log := AndThen(ps, states, log, Discovered(ip), w.(next := 1));
      states, log := AndThen(ps, states, log, Requested(ip, true), w.(base := n));
    }
  }

  lemma AndThen(ps: Params, states: seq<Window>, log: seq<Event>, e: Event, w: Window)
    returns (states': seq<Window>, log': seq<Event>)
    requires IsRun(ps, states, log) && Step(ps, states[|log|], e, w)
    ensures IsRun(ps, states', log') && states' == states + [w] && log' == log + [e]
  {
    states', log' := states + [w], log + [e];
    assert StepAt(ps, states', log', |log|);
    ExtendRun(ps, states, log, w, e);
  }

  /** A run in which address 0 is acknowledged and was not offered: at the very start of
      a pool that starts there, and at the very end of one that ends at the last 32-bit
      address. Both times the window is empty and its upper bound wraps round. */
  lemma ZeroIsAcked(ps: Params) returns (states: seq<Window>, log: seq<Event>)
    requires ps.Valid() && (ps.poolStart == 0 || ps.poolEnd == TWO_32 - 1)
    ensures IsRun(ps, states, log) && log != [] && log[|log| - 1] == Requested(0, true)
    ensures forall i | 0 <= i < |log| :: log[i] != Discovered(0)
  {
    if ps.poolStart == 0 {
      states, log := [Empty(ps.width)], [];
    } else {
      states, log := TurnsRun(ps, TWO_32 - ps.poolStart);
    }
    var (w, ok) := Commit(ps, states[|log|], 0);
    assert ok;
    states, log := AndThen(ps, states, log, Requested(0, true), w);
  }

  /** Exactly: only offered addresses are acknowledged if and only if the pool neither
      starts at address 0 nor ends at the last 32-bit address. */
  lemma AcksSoundIff(ps: Params)
    requires ps.Valid()
    ensures AcksAreSound(ps) <==> ps.poolStart > 0 && ps.poolEnd < TWO_32 - 1
  {
    if ps.poolStart > 0 && ps.poolEnd < TWO_32 - 1 {
      forall states: seq<Window>, log: seq<Event> | IsRun(ps, states, log) ensures GoodAcks(log) {
        forall k | 0 <= k < |log| && log[k].Requested? && log[k].acked
          ensures exists i :: 0 <= i < k && log[i] == Discovered(log[k].ip)
        {
          AcksFollowOffers(ps, states, log, k, log[k].ip);
        }
      }
    } else {
      var states, log := ZeroIsAcked(ps);
      assert log[|log| - 1].acked;
    }
  }
}
