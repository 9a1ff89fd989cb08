/** The benchmark client: worker threads that each take clients from a queue and run
    the DHCP exchange, and one receive manager that routes frames to their mailboxes
    by transaction id. Threads are interleaved at their lock-protected steps; frames
    may arrive, get lost, or time out in any way. */
module ClientProtocol {
  import opened Wrappers

  datatype Kind = Unknown | Offer | Ack | Nak

  /** A received frame. Its kind is unknown also when a header check fails. */
  datatype Frame = Frame(xid: uint32, kind: Kind, yiaddr: uint32)

  datatype Phase = New | Discovering | Requesting | Done | Failed

  datatype Client = Client(phase: Phase, retries: nat, mailbox: Option<Frame>, address: uint32, sent: nat)

  /** Where a worker is, and with which client. */
  datatype Worker =
    | Idle
    | Popped(c: nat)                  // took the client from the queue
    | Registered(c: nat)              // entered it into the transaction table
    | Waiting(c: nat)                 // sent a frame, waits for the mailbox
    | Handling(c: nat, frame: Frame)  // took a frame out of the mailbox
    | Finishing(c: nat)               // the exchange is over
    | Exited

  datatype Manager = Listening | Looking(frame: Frame) | Delivering(frame: Frame, to: nat)

  datatype State = State(clients: seq<Client>, workers: seq<Worker>, queue: seq<nat>,
                         table: map<uint32, nat>, manager: Manager)

  datatype Params = Params(xids: seq<uint32>, maxRetries: nat) {
    /** Transaction ids are pairwise distinct. */
    predicate Valid() {
      maxRetries > 0 && forall i, j | 0 <= i < j < |xids| :: xids[i] != xids[j]
    }
  }

  datatype Action =
    | Pop(w: nat) | Register(w: nat, room: bool) | SendDiscover(w: nat, ok: bool) | Take(w: nat)
    | Timeout(w: nat) | Handle(w: nat, ok: bool) | Finish(w: nat)
    | Receive(frame: Frame) | Lookup | Deliver

  ghost predicate Shaped(ps: Params, s: State) {
    && |s.clients| == |ps.xids|
    && (forall i | 0 <= i < |s.queue| :: s.queue[i] < |s.clients|)
    && (forall w | 0 <= w < |s.workers| && HasClient(s.workers[w]) :: s.workers[w].c < |s.clients|)
    && (s.manager.Delivering? ==> s.manager.to < |s.clients|)
    && (forall x | x in s.table :: s.table[x] < |s.clients|)
  }

  predicate HasClient(wk: Worker) {
    !wk.Idle? && !wk.Exited?
  }

  predicate Enabled(s: State, a: Action) {
    match a
    case Pop(w) => w < |s.workers| && s.workers[w].Idle?
    case Register(w, _) => w < |s.workers| && s.workers[w].Popped?
    case SendDiscover(w, _) => w < |s.workers| && s.workers[w].Registered?
    case Take(w) => w < |s.workers| && s.workers[w].Waiting?
                    && s.workers[w].c < |s.clients| && s.clients[s.workers[w].c].mailbox.Some?
    case Timeout(w) => w < |s.workers| && s.workers[w].Waiting?
    case Handle(w, _) => w < |s.workers| && s.workers[w].Handling?
    case Finish(w) => w < |s.workers| && s.workers[w].Finishing?
    case Receive(_) => s.manager.Listening?
    case Lookup => s.manager.Looking?
    case Deliver => s.manager.Delivering?
  }

  /** The outcome of a timed-out wait: give up, or send the last frame again. */
  function TimedOut(ps: Params, cl: Client): (Client, bool) {
    if cl.retries + 1 >= ps.maxRetries then (cl.(retries := cl.retries + 1, phase := Failed), true)
    else (cl.(retries := cl.retries + 1, sent := cl.sent + 1), false)
  }

  /** The outcome of a frame taken from the mailbox; frames of other transactions
      count as unknown. `ok` is whether sending a REQUEST worked. The second result
      tells whether the exchange is over. */
  function Handled(xid: uint32, cl: Client, f: Frame, ok: bool): (Client, bool) {
    match if f.xid == xid then f.kind else Unknown
    case Offer =>
      if cl.phase != Discovering then (cl, false)
      else if ok then (cl.(phase := Requesting, retries := 0, sent := cl.sent + 1), false)
      else (cl, true)
    case Ack =>
      if cl.phase != Requesting then (cl, false) else (cl.(address := f.yiaddr, phase := Done), true)
    case Nak => (cl.(phase := Failed), true)
    case Unknown => (cl, false)
  }

  /** One step. `room` is whether the transaction table could take another entry,
      `ok` whether a frame could be sent. */
  function Do(ps: Params, s: State, a: Action): State
    requires Shaped(ps, s) && Enabled(s, a)
  {
    match a
    case Pop(w) =>
      if s.queue == [] then s.(workers := s.workers[w := Exited])
      else s.(workers := s.workers[w := Popped(s.queue[0])], queue := s.queue[1..])
    case Register(w, room) =>
      var c := s.workers[w].c;
      s.(workers := s.workers[w := Registered(c)], clients := s.clients[c := s.clients[c].(mailbox := None)],
         table := if room then s.table[ps.xids[c] := c] else s.table)
    case SendDiscover(w, ok) =>
      var c := s.workers[w].c;
      if ok then s.(workers := s.workers[w := Waiting(c)],
                    clients := s.clients[c := s.clients[c].(phase := Discovering, sent := s.clients[c].sent + 1)])
      else s.(workers := s.workers[w := Finishing(c)])
    case Take(w) =>
      var c := s.workers[w].c;
      s.(workers := s.workers[w := Handling(c, s.clients[c].mailbox.value)],
         clients := s.clients[c := s.clients[c].(mailbox := None)])
    case Timeout(w) =>
      var c := s.workers[w].c;
      var (cl, over) := TimedOut(ps, s.clients[c]);
      s.(workers := s.workers[w := if over then Finishing(c) else Waiting(c)], clients := s.clients[c := cl])
    case Handle(w, ok) =>
      var c := s.workers[w].c;
      var (cl, over) := Handled(ps.xids[c], s.clients[c], s.workers[w].frame, ok);
      s.(workers := s.workers[w := if over then Finishing(c) else Waiting(c)], clients := s.clients[c := cl])
    case Finish(w) =>
      s.(workers := s.workers[w := Idle], table := s.table - {ps.xids[s.workers[w].c]})
    case Receive(f) => s.(manager := Looking(f))
    case Lookup =>
      s.(manager := if s.manager.frame.xid in s.table then Delivering(s.manager.frame, s.table[s.manager.frame.xid])
                    else Listening)
    case Deliver =>
      var c := s.manager.to;
      s.(manager := Listening, clients := s.clients[c := s.clients[c].(mailbox := Some(s.manager.frame))])
  }

  // ----- Invariant ---------------------------------------------------------

  /** Frames sent for a client are bounded by its phase and retries. */
  predicate Budget(ps: Params, cl: Client) {
    match cl.phase
    case New => cl.sent == 0 && cl.retries == 0
    case Discovering => cl.retries < ps.maxRetries && cl.sent <= cl.retries + 1
    case Requesting => cl.retries < ps.maxRetries && cl.sent <= ps.maxRetries + cl.retries + 1
    case _ => cl.sent <= 2 * ps.maxRetries
  }

  /** The phases a client can be in while its worker is at a given point. */
  predicate PhaseFits(wk: Worker, cl: Client) {
    && (wk.Popped? || wk.Registered? ==> cl.phase.New?)
    && (wk.Waiting? || wk.Handling? ==> cl.phase.Discovering? || cl.phase.Requesting?)
  }

  /** Frames are routed to the client whose transaction id they carry. */
  ghost predicate Routed(ps: Params, s: State)
    requires Shaped(ps, s)
  {
    && (forall x | x in s.table :: ps.xids[s.table[x]] == x)
    && (s.manager.Delivering? ==> s.manager.frame.xid == ps.xids[s.manager.to])
    && (forall c | 0 <= c < |s.clients| && s.clients[c].mailbox.Some? :: s.clients[c].mailbox.value.xid == ps.xids[c])
    && (forall w | 0 <= w < |s.workers| && s.workers[w].Handling? :: s.workers[w].frame.xid == ps.xids[s.workers[w].c])
  }

  /** No client is in two hands: queue entries are distinct, and distinct from the
      clients workers have, which are distinct too. */
  ghost predicate Exclusive(s: State) {
    && (forall i, j | 0 <= i < j < |s.queue| :: s.queue[i] != s.queue[j])
    && (forall i, w | 0 <= i < |s.queue| && 0 <= w < |s.workers| && HasClient(s.workers[w]) ::
          s.workers[w].c != s.queue[i])
    && (forall v, w | 0 <= v < w < |s.workers| && HasClient(s.workers[v]) && HasClient(s.workers[w]) ::
          s.workers[v].c != s.workers[w].c)
  }

  ghost predicate Phased(ps: Params, s: State)
    requires Shaped(ps, s)
  {
    && (forall i | 0 <= i < |s.queue| :: s.clients[s.queue[i]].phase.New?)
    && (forall w | 0 <= w < |s.workers| && HasClient(s.workers[w]) ::
          PhaseFits(s.workers[w], s.clients[s.workers[w].c]))
  }

  ghost predicate Inv(ps: Params, s: State) {
    && ps.Valid() && Shaped(ps, s)
    && Routed(ps, s)
    && Exclusive(s)
    && Phased(ps, s)
    && (forall c | 0 <= c < |s.clients| :: Budget(ps, s.clients[c]))
  }

  lemma DoKeepsShape(ps: Params, s: State, a: Action)
    requires ps.Valid() && Shaped(ps, s) && Enabled(s, a)
    ensures Shaped(ps, Do(ps, s, a))
  {
  }

  lemma DoKeepsRouted(ps: Params, s: State, a: Action)
    requires ps.Valid() && Shaped(ps, s) && Routed(ps, s) && Enabled(s, a)
    ensures Shaped(ps, Do(ps, s, a)) && Routed(ps, Do(ps, s, a))
  {
    DoKeepsShape(ps, s, a);
  }

  lemma DoKeepsExclusive(ps: Params, s: State, a: Action)
    requires Shaped(ps, s) && Exclusive(s) && Enabled(s, a)
    ensures Exclusive(Do(ps, s, a))
  {
    if !a.Pop? {
      HandsStay(ps, s, a);
    }
  }

  /** But for taking one from the queue, no step gives a worker another client. */
  lemma HandsStay(ps: Params, s: State, a: Action)
    requires Shaped(ps, s) && Enabled(s, a) && !a.Pop?
    ensures Do(ps, s, a).queue == s.queue && |Do(ps, s, a).workers| == |s.workers|
    ensures forall w | 0 <= w < |s.workers| && HasClient(Do(ps, s, a).workers[w]) ::
              HasClient(s.workers[w]) && Do(ps, s, a).workers[w].c == s.workers[w].c
  {
  }

  lemma DoKeepsPhased(ps: Params, s: State, a: Action)
    requires ps.Valid() && Shaped(ps, s) && Exclusive(s) && Phased(ps, s) && Enabled(s, a)
    ensures Shaped(ps, Do(ps, s, a)) && Phased(ps, Do(ps, s, a))
  {
    DoKeepsShape(ps, s, a);
  }

  lemma DoKeepsBudget(ps: Params, s: State, a: Action, c: nat)
    requires ps.Valid() && Shaped(ps, s) && Phased(ps, s) && Enabled(s, a)
    requires c < |s.clients| && Budget(ps, s.clients[c])
    ensures |Do(ps, s, a).clients| == |s.clients| && Budget(ps, Do(ps, s, a).clients[c])
  {
  }

  lemma DoKeepsInv(ps: Params, s: State, a: Action)
    requires Inv(ps, s) && Enabled(s, a)
    ensures Inv(ps, Do(ps, s, a))
  {
    DoKeepsRouted(ps, s, a);
    DoKeepsExclusive(ps, s, a);
    DoKeepsPhased(ps, s, a);
    var t := Do(ps, s, a);
    forall c | 0 <= c < |t.clients| ensures Budget(ps, t.clients[c]) {
      DoKeepsBudget(ps, s, a, c);
    }
  }

  // ----- Runs --------------------------------------------------------------

  /** Everything queued once, nothing started. */
  ghost predicate Initial(ps: Params, s: State) {
    && ps.Valid() && |s.clients| == |ps.xids|
    && (forall c | 0 <= c < |s.clients| ::
          s.clients[c].phase.New? && s.clients[c].retries == 0 && s.clients[c].sent == 0 && s.clients[c].mailbox.None?)
    && (forall i | 0 <= i < |s.queue| :: s.queue[i] < |s.clients|)
    && (forall i, j | 0 <= i < j < |s.queue| :: s.queue[i] != s.queue[j])
    && (forall w | 0 <= w < |s.workers| :: s.workers[w].Idle?)
    && s.table == map[] && s.manager == Listening
  }

  ghost predicate StepAt(ps: Params, states: seq<State>, actions: seq<Action>, i: nat)
    requires i < |actions| < |states|
  {
    Shaped(ps, states[i]) && Enabled(states[i], actions[i]) && states[i + 1] == Do(ps, states[i], actions[i])
  }

  /** A run: any schedule of workers, receive manager, arrivals and timeouts. */
  ghost predicate IsRun(ps: Params, states: seq<State>, actions: seq<Action>) {
    && |states| == |actions| + 1
    && Initial(ps, states[0])
    && forall i | 0 <= i < |actions| :: StepAt(ps, states, actions, i)
  }

  lemma {:induction false} RunInv(ps: Params, states: seq<State>, actions: seq<Action>, k: nat)
    requires IsRun(ps, states, actions) && k <= |actions|
    ensures Inv(ps, states[k])
  {
    if k > 0 {
      RunInv(ps, states, actions, k - 1);
      assert StepAt(ps, states, actions, k - 1);
      DoKeepsInv(ps, states[k - 1], actions[k - 1]);
    }
  }

  /** At most 2 * maxRetries frames are ever sent for one client. */
  lemma FramesAreBounded(ps: Params, states: seq<State>, actions: seq<Action>, k: nat, c: nat)
    requires IsRun(ps, states, actions) && k <= |actions| && c < |ps.xids|
    ensures |states[k].clients| == |ps.xids| && states[k].clients[c].sent <= 2 * ps.maxRetries
  {
    RunInv(ps, states, actions, k);
  }

  /** At step `i` the worker of client `c` accepts frame `f` of the given kind, which
      moves the client from phase `from` to phase `to`. */
  ghost predicate Accepts(ps: Params, states: seq<State>, actions: seq<Action>, i: nat, c: nat,
                          f: Frame, from: Phase, to: Phase)
    requires i < |actions| < |states|
  {
    && actions[i].Handle? && actions[i].w < |states[i].workers|
    && states[i].workers[actions[i].w] == Handling(c, f)
    && c < |ps.xids| && f.xid == ps.xids[c]
    && c < |states[i].clients| && states[i].clients[c].phase == from
    && c < |states[i + 1].clients| && states[i + 1].clients[c].phase == to
  }

  /** The only way into a later phase is accepting the right frame. */
  lemma PhaseChange(ps: Params, states: seq<State>, actions: seq<Action>, i: nat, c: nat)
    requires IsRun(ps, states, actions) && i < |actions| && c < |ps.xids|
    requires Inv(ps, states[i]) && Inv(ps, states[i + 1])
    ensures var cl, cl' := states[i].clients[c], states[i + 1].clients[c];
            && (cl'.phase.Requesting? && !cl.phase.Requesting? ==>
                  exists f :: Accepts(ps, states, actions, i, c, f, Discovering, Requesting) && f.kind == Offer)
            && (cl'.phase.Done? && !cl.phase.Done? ==>
                  exists f :: Accepts(ps, states, actions, i, c, f, Requesting, Done) && f.kind == Ack
                              && cl'.address == f.yiaddr)
            && (cl.phase.Done? ==> cl'.phase.Done? && cl'.address == cl.address)
  {
    assert StepAt(ps, states, actions, i);
    var s, a := states[i], actions[i];
    if a.Handle? && s.workers[a.w].c == c {
      var f := s.workers[a.w].frame;
      assert s.workers[a.w] == Handling(c, f);
      assert states[i + 1].clients[c].phase.Requesting? && !s.clients[c].phase.Requesting? ==>
          Accepts(ps, states, actions, i, c, f, Discovering, Requesting);
      assert states[i + 1].clients[c].phase.Done? && !s.clients[c].phase.Done? ==>
          Accepts(ps, states, actions, i, c, f, Requesting, Done);
    }
  }

  lemma {:induction false} OfferAccepted(ps: Params, states: seq<State>, actions: seq<Action>, k: nat, c: nat)
    returns (i: nat, f: Frame)
    requires IsRun(ps, states, actions) && k <= |actions| && c < |ps.xids|
    requires c < |states[k].clients| && states[k].clients[c].phase.Requesting?
    ensures i < k && Accepts(ps, states, actions, i, c, f, Discovering, Requesting) && f.kind == Offer
    decreases k
  {
    RunInv(ps, states, actions, k);
    RunInv(ps, states, actions, k - 1);
    if states[k - 1].clients[c].phase.Requesting? {
      i, f := OfferAccepted(ps, states, actions, k - 1, c);
    } else {
      i := k - 1;
      PhaseChange(ps, states, actions, i, c);
      f :| Accepts(ps, states, actions, i, c, f, Discovering, Requesting) && f.kind == Offer;
    }
  }

  lemma {:induction false} AckAccepted(ps: Params, states: seq<State>, actions: seq<Action>, k: nat, c: nat)
    returns (j: nat, f: Frame)
    requires IsRun(ps, states, actions) && k <= |actions| && c < |ps.xids|
    requires c < |states[k].clients| && states[k].clients[c].phase.Done?
    ensures j < k && Accepts(ps, states, actions, j, c, f, Requesting, Done) && f.kind == Ack
    ensures states[k].clients[c].address == f.yiaddr
    decreases k
  {
    RunInv(ps, states, actions, k);
    RunInv(ps, states, actions, k - 1);
    PhaseChange(ps, states, actions, k - 1, c);
    if states[k - 1].clients[c].phase.Done? {
      j, f := AckAccepted(ps, states, actions, k - 1, c);
    } else {
      j := k - 1;
      f :| Accepts(ps, states, actions, j, c, f, Requesting, Done) && f.kind == Ack
           && states[k].clients[c].address == f.yiaddr;
    }
  }

  /** A client is done only after its worker accepted an OFFER and later an ACK, both
      carrying the client's own transaction id; its address is that of the ACK. */
  lemma DoneMeansOfferThenAck(ps: Params, states: seq<State>, actions: seq<Action>, k: nat, c: nat)
    returns (i: nat, offer: Frame, j: nat, ack: Frame)
    requires IsRun(ps, states, actions) && k <= |actions| && c < |ps.xids|
    requires c < |states[k].clients| && states[k].clients[c].phase.Done?
    ensures i < j < k
    ensures Accepts(ps, states, actions, i, c, offer, Discovering, Requesting)
    ensures offer.kind == Offer && offer.xid == ps.xids[c]
    ensures Accepts(ps, states, actions, j, c, ack, Requesting, Done) && ack.kind == Ack && ack.xid == ps.xids[c]
    ensures states[k].clients[c].address == ack.yiaddr
    ensures WasReceived(actions, i, offer) && WasReceived(actions, j, ack)
  {
    j, ack := AckAccepted(ps, states, actions, k, c);
    i, offer := OfferAccepted(ps, states, actions, j, c);
    FramesWereReceived(ps, states, actions, i);
    FramesWereReceived(ps, states, actions, j);
  }

  /** Every frame in a mailbox or being handled was received before. */
  ghost predicate WasReceived(actions: seq<Action>, k: nat, f: Frame) {
    exists r :: 0 <= r < k <= |actions| && actions[r] == Receive(f)
  }

  ghost predicate AllReceived(s: State, actions: seq<Action>, k: nat) {
    && (s.manager.Looking? || s.manager.Delivering? ==> WasReceived(actions, k, s.manager.frame))
    && (forall c | 0 <= c < |s.clients| && s.clients[c].mailbox.Some? ::
          WasReceived(actions, k, s.clients[c].mailbox.value))
    && (forall w | 0 <= w < |s.workers| && s.workers[w].Handling? :: WasReceived(actions, k, s.workers[w].frame))
  }

  lemma {:induction false} FramesWereReceived(ps: Params, states: seq<State>, actions: seq<Action>, k: nat)
    requires IsRun(ps, states, actions) && k <= |actions|
    ensures AllReceived(states[k], actions, k)
  {
    if k > 0 {
      FramesWereReceived(ps, states, actions, k - 1);
      assert StepAt(ps, states, actions, k - 1);
      var s, a := states[k - 1], actions[k - 1];
      assert forall f | WasReceived(actions, k - 1, f) :: WasReceived(actions, k, f);
      if a.Receive? {
        assert actions[k - 1] == Receive(a.frame);
      }
    }
  }

  // ----- Who runs which client ---------------------------------------------

  /** Number of clients taken from the queue in the first `k` steps. */
  function Taken(states: seq<State>, actions: seq<Action>, k: nat): nat
    requires k <= |actions| < |states|
  {
    if k == 0 then 0
    else Taken(states, actions, k - 1) + if actions[k - 1].Pop? && states[k - 1].queue != [] then 1 else 0
  }

  lemma {:induction false} QueueIsRest(ps: Params, states: seq<State>, actions: seq<Action>, k: nat)
    requires IsRun(ps, states, actions) && k <= |actions|
    ensures Taken(states, actions, k) <= |states[0].queue|
    ensures states[k].queue == states[0].queue[Taken(states, actions, k)..]
  {
    if k > 0 {
      QueueIsRest(ps, states, actions, k - 1);
      assert StepAt(ps, states, actions, k - 1);
    }
  }

  lemma {:induction false} TakenGrows(states: seq<State>, actions: seq<Action>, i: nat, j: nat)
    requires i <= j <= |actions| < |states|
    ensures Taken(states, actions, i) <= Taken(states, actions, j)
    decreases j
  {
    if i < j {
      TakenGrows(states, actions, i, j - 1);
    }
  }

  /** Clients are handed out in queue order, and no client is taken twice; while one
      worker has a client no other has it. */
  lemma EachClientRunOnce(ps: Params, states: seq<State>, actions: seq<Action>, i: nat, j: nat)
    requires IsRun(ps, states, actions) && i < j < |actions|
    requires actions[i].Pop? && states[i].queue != [] && actions[j].Pop? && states[j].queue != []
    ensures Taken(states, actions, i) < |states[0].queue|
    ensures states[i].queue[0] == states[0].queue[Taken(states, actions, i)]
    ensures states[i].queue[0] != states[j].queue[0]
    ensures Exclusive(states[j])
  {
    QueueIsRest(ps, states, actions, i);
    QueueIsRest(ps, states, actions, j);
    TakenGrows(states, actions, i + 1, j);
    RunInv(ps, states, actions, j);
  }

  /** Frames that reach a worker always carry its client's transaction id, so the
      second check when parsing never rejects one. */
  lemma RoutingIsExact(ps: Params, states: seq<State>, actions: seq<Action>, k: nat, w: nat)
    requires IsRun(ps, states, actions) && k <= |actions| && w < |states[k].workers| && states[k].workers[w].Handling?
    ensures states[k].workers[w].c < |ps.xids|
    ensures states[k].workers[w].frame.xid == ps.xids[states[k].workers[w].c]
    ensures WasReceived(actions, k, states[k].workers[w].frame)
  {
    RunInv(ps, states, actions, k);
    FramesWereReceived(ps, states, actions, k);
  }

  // ----- What a worker does ------------------------------------------------

  /** All of `s'` but client `c` and worker `w` is as in `s`. */
  ghost predicate OnlyAt(s: State, s': State, w: nat, c: nat) {
    && w < |s.workers| && c < |s.clients| && |s'.workers| == |s.workers| && |s'.clients| == |s.clients|
    && (forall v | 0 <= v < |s.workers| && v != w :: s'.workers[v] == s.workers[v])
    && (forall d | 0 <= d < |s.clients| && d != c :: s'.clients[d] == s.clients[d])
    && s'.queue == s.queue && s'.table == s.table && s'.manager == s.manager
  }

  /** A timeout before the last retry sends the frame again and waits on; the last one
      gives up. */
  lemma TimeoutMeans(ps: Params, s: State, w: nat)
    requires Shaped(ps, s) && Enabled(s, Timeout(w))
    ensures var c, s' := s.workers[w].c, Do(ps, s, Timeout(w));
            && OnlyAt(s, s', w, c)
            && var cl, cl' := s.clients[c], s'.clients[c];
            if cl.retries + 1 < ps.maxRetries then
              && s'.workers[w] == Waiting(c)
              && cl' == Client(cl.phase, cl.retries + 1, cl.mailbox, cl.address, cl.sent + 1)
            else s'.workers[w] == Finishing(c) && cl'.phase == Failed && cl'.sent == cl.sent
  {
  }

  /** Of the frames with its xid a worker follows an OFFER only while discovering, an ACK only
      while requesting, and a NAK always; it passes over all else and waits on. An OFFER
      that can be answered makes it send a REQUEST, with all retries again; an ACK ends the
      exchange as done, with the address the frame carries; a NAK ends it as failed. */
  lemma HandleMeans(ps: Params, s: State, w: nat, ok: bool)
    requires Shaped(ps, s) && Enabled(s, Handle(w, ok)) && s.workers[w].frame.xid == ps.xids[s.workers[w].c]
    ensures var c, f, s' := s.workers[w].c, s.workers[w].frame, Do(ps, s, Handle(w, ok));
            && OnlyAt(s, s', w, c)
            && var cl, cl' := s.clients[c], s'.clients[c];
            if f.kind == Offer && cl.phase == Discovering then
              if ok then s'.workers[w] == Waiting(c)
                         && cl' == Client(Requesting, 0, cl.mailbox, cl.address, cl.sent + 1)
              else s'.workers[w] == Finishing(c) && cl' == cl
            else if f.kind == Ack && cl.phase == Requesting then
              s'.workers[w] == Finishing(c) && cl' == Client(Done, cl.retries, cl.mailbox, f.yiaddr, cl.sent)
            else if f.kind == Nak then
              s'.workers[w] == Finishing(c) && cl' == Client(Failed, cl.retries, cl.mailbox, cl.address, cl.sent)
            else s'.workers[w] == Waiting(c) && cl' == cl
  {
  }

  /** The remaining steps of a worker: it takes the first queued client, or exits; enters it
      into the table with an empty mailbox; sends its DISCOVER, or finishes if that fails; takes
      the frame out of its mailbox; and at the end removes it from the table. */
  lemma WorkerSteps(ps: Params, s: State, a: Action)
    requires Shaped(ps, s) && Enabled(s, a)
    requires a.Pop? || a.Register? || a.SendDiscover? || a.Take? || a.Finish?
    ensures var s', w := Do(ps, s, a), a.w;
            && s'.manager == s.manager && |s'.workers| == |s.workers| && |s'.clients| == |s.clients|
            && (forall v | 0 <= v < |s.workers| && v != w :: s'.workers[v] == s.workers[v])
            && (a.Pop? && s.queue == [] ==> s'.workers[w] == Exited && s'.queue == [])
            && (a.Pop? && s.queue != [] ==> s'.workers[w] == Popped(s.queue[0]) && s.queue == [s.queue[0]] + s'.queue)
            && (a.Pop? ==> s'.clients == s.clients && s'.table == s.table)
            && (!a.Pop? ==> s'.queue == s.queue && forall c | 0 <= c < |s.clients| && c != s.workers[w].c ::
                                                     s'.clients[c] == s.clients[c])
    ensures !a.Pop? ==>
              var s', c := Do(ps, s, a), s.workers[a.w].c;
              var cl, cl', wk' := s.clients[c], s'.clients[c], s'.workers[a.w];
              && (a.Register? ==> wk' == Registered(c) && cl' == cl.(mailbox := None))
              && (a.Register? ==> s'.table.Keys == s.table.Keys + if a.room then {ps.xids[c]} else {})
              && (a.Register? && a.room ==> s'.table[ps.xids[c]] == c)
              && (a.SendDiscover? && a.ok ==> wk' == Waiting(c))
              && (a.SendDiscover? && a.ok ==> cl' == cl.(phase := Discovering, sent := cl.sent + 1))
              && (a.SendDiscover? && !a.ok ==> wk' == Finishing(c) && cl' == cl)
              && (a.Take? ==> cl.mailbox.Some? && wk' == Handling(c, cl.mailbox.value) && cl' == cl.(mailbox := None))
              && (a.Finish? ==> wk' == Idle && cl' == cl && s'.table.Keys == s.table.Keys - {ps.xids[c]})
              && (a.SendDiscover? || a.Take? ==> s'.table == s.table)
  {
  }

  /** The receive manager looks up each frame it receives and puts it into the mailbox of the
      client with that xid, over whatever was there, or drops it if there is none. */
  lemma ManagerSteps(ps: Params, s: State, a: Action)
    requires Shaped(ps, s) && Enabled(s, a) && (a.Receive? || a.Lookup? || a.Deliver?)
    ensures var s' := Do(ps, s, a);
            && s'.workers == s.workers && s'.queue == s.queue && s'.table == s.table && |s'.clients| == |s.clients|
            && (a.Receive? ==> s'.manager == Looking(a.frame))
            && (a.Lookup? ==> var f := s.manager.frame;
                  s'.manager == if f.xid in s.table then Delivering(f, s.table[f.xid]) else Listening)
            && (a.Deliver? ==> s'.manager == Listening)
            && (a.Deliver? ==> s'.clients[s.manager.to] == s.clients[s.manager.to].(mailbox := Some(s.manager.frame)))
            && forall c | 0 <= c < |s.clients| && !(a.Deliver? && c == s.manager.to) :: s'.clients[c] == s.clients[c]
  {
  }

  /** A worker is between entering its client into the table and removing it. */
  predicate IsListed(wk: Worker) {
    HasClient(wk) && !wk.Popped?
  }

  ghost predicate Busy(s: State, w: int, c: nat) {
    0 <= w < |s.workers| && IsListed(s.workers[w]) && s.workers[w].c == c
  }

  ghost predicate HeldWhileListed(s: State) {
    forall x | x in s.table :: exists w :: Busy(s, w, s.table[x])
  }

  lemma StaysBusy(ps: Params, s: State, a: Action, w: nat, c: nat)
    requires Shaped(ps, s) && Enabled(s, a) && Busy(s, w, c) && a != Finish(w)
    ensures Busy(Do(ps, s, a), w, c)
  {
  }

  lemma DoKeepsListed(ps: Params, s: State, a: Action)
    requires Shaped(ps, s) && Routed(ps, s) && HeldWhileListed(s) && Enabled(s, a)
    ensures HeldWhileListed(Do(ps, s, a))
  {
    var s' := Do(ps, s, a);
    forall x | x in s'.table ensures exists w :: Busy(s', w, s'.table[x]) {
      if a.Register? && x == ps.xids[s.workers[a.w].c] && a.room {
        assert Busy(s', a.w, s'.table[x]);
      } else {
        assert x in s.table && s'.table[x] == s.table[x];
        var w :| Busy(s, w, s.table[x]);
        StaysBusy(ps, s, a, w, s.table[x]);
      }
    }
  }

  /** Throughout every run only clients that a worker is busy with are in the table, so frames
      for clients that are finished or not started are dropped when they are looked up. */
  lemma {:induction false} OnlyBusyClientsListed(ps: Params, states: seq<State>, actions: seq<Action>, k: nat)
    requires IsRun(ps, states, actions) && k <= |actions|
    ensures HeldWhileListed(states[k])
  {
    RunInv(ps, states, actions, k);
    if k > 0 {
      OnlyBusyClientsListed(ps, states, actions, k - 1);
      RunInv(ps, states, actions, k - 1);
      assert StepAt(ps, states, actions, k - 1);
      DoKeepsListed(ps, states[k - 1], actions[k - 1]);
    }
  }

  // ----- Runs that exist ---------------------------------------------------

  /** Worker 0 waits for an answer to client `c`. */
  ghost predicate Awaits(ps: Params, s: State, c: nat, phase: Phase, retries: nat, sent: nat) {
    && ps.Valid() && Shaped(ps, s) && c < |ps.xids|
    && |s.workers| > 0 && s.workers[0] == Waiting(c) && s.manager == Listening
    && ps.xids[c] in s.table && s.table[ps.xids[c]] == c
    && s.clients[c].phase == phase && s.clients[c].retries == retries && s.clients[c].sent == sent
  }

  lemma Then(ps: Params, states: seq<State>, actions: seq<Action>, a: Action)
    returns (states': seq<State>, actions': seq<Action>)
    requires IsRun(ps, states, actions) && Enabled(states[|actions|], a)
    ensures Shaped(ps, states[|actions|]) && IsRun(ps, states', actions')
    ensures states'[|actions'|] == Do(ps, states[|actions|], a) && actions' == actions + [a]
  {
    RunInv(ps, states, actions, |actions|);
    states', actions' := states + [Do(ps, states[|actions|], a)], actions + [a];
    forall i | 0 <= i < |actions'| ensures StepAt(ps, states', actions', i) {
      if i < |actions| {
        assert StepAt(ps, states, actions, i);
      }
    }
  }

  /** One worker takes a client and sends its DISCOVER. */
  lemma Started(ps: Params, c: nat) returns (states: seq<State>, actions: seq<Action>)
    requires ps.Valid() && c < |ps.xids|
    ensures IsRun(ps, states, actions) && Awaits(ps, states[|actions|], c, Discovering, 0, 1)
  {
    var clients := seq(|ps.xids|, _ => Client(New, 0, None, 0, 0));
    states, actions := [State(clients, [Idle], [c], map[], Listening)], [];
    states, actions := Then(ps, states, actions, Pop(0));
    states, actions := Then(ps, states, actions, Register(0, true));
    states, actions := Then(ps, states, actions, SendDiscover(0, true));
    RunInv(ps, states, actions, |actions|);
  }

  /** A frame with the client's xid comes in and the worker takes it. */
  lemma FrameTaken(ps: Params, states: seq<State>, actions: seq<Action>, c: nat, f: Frame,
                   phase: Phase, retries: nat, sent: nat)
    returns (states': seq<State>, actions': seq<Action>)
    requires IsRun(ps, states, actions) && Awaits(ps, states[|actions|], c, phase, retries, sent)
    requires f.xid == ps.xids[c]
    ensures IsRun(ps, states', actions') && Shaped(ps, states'[|actions'|])
    ensures var s' := states'[|actions'|];
            && |s'.workers| > 0 && s'.workers[0] == Handling(c, f)
            && Awaits(ps, s'.(workers := s'.workers[0 := Waiting(c)]), c, phase, retries, sent)
  {
    states', actions' := Then(ps, states, actions, Receive(f));
    states', actions' := Then(ps, states', actions', Lookup);
    states', actions' := Then(ps, states', actions', Deliver);
    states', actions' := Then(ps, states', actions', Take(0));
    RunInv(ps, states', actions', |actions'|);
  }

  lemma OfferTaken(ps: Params, states: seq<State>, actions: seq<Action>, c: nat, retries: nat, sent: nat, ip: uint32)
    returns (states': seq<State>, actions': seq<Action>)
    requires IsRun(ps, states, actions) && Awaits(ps, states[|actions|], c, Discovering, retries, sent)
    ensures IsRun(ps, states', actions') && Awaits(ps, states'[|actions'|], c, Requesting, 0, sent + 1)
  {
    states', actions' := FrameTaken(ps, states, actions, c, Frame(ps.xids[c], Offer, ip), Discovering, retries, sent);
    HandleMeans(ps, states'[|actions'|], 0, true);
    states', actions' := Then(ps, states', actions', Handle(0, true));
    RunInv(ps, states', actions', |actions'|);
  }

  /** Every client can get any address: there is a run in which it becomes done with it. */
  lemma DoneIsReachable(ps: Params, c: nat, ip: uint32) returns (states: seq<State>, actions: seq<Action>)
    requires ps.Valid() && c < |ps.xids|
    ensures IsRun(ps, states, actions) && c < |states[|actions|].clients|
    ensures states[|actions|].clients[c].phase == Done && states[|actions|].clients[c].address == ip
    ensures states[|actions|].clients[c].sent == 2
  {
    states, actions := Started(ps, c);
    states, actions := OfferTaken(ps, states, actions, c, 0, 1, ip);
    states, actions := FrameTaken(ps, states, actions, c, Frame(ps.xids[c], Ack, ip), Requesting, 0, 2);
    HandleMeans(ps, states[|actions|], 0, true);
    states, actions := Then(ps, states, actions, Handle(0, true));
  }

  lemma {:induction false} Timeouts(ps: Params, states: seq<State>, actions: seq<Action>, c: nat,
                                    phase: Phase, retries: nat, sent: nat, n: nat)
    returns (states': seq<State>, actions': seq<Action>)
    requires IsRun(ps, states, actions) && Awaits(ps, states[|actions|], c, phase, retries, sent)
    requires retries + n < ps.maxRetries
    ensures IsRun(ps, states', actions') && Awaits(ps, states'[|actions'|], c, phase, retries + n, sent + n)
    decreases n
  {
    states', actions' := states, actions;
    if n > 0 {
      TimeoutMeans(ps, states[|actions|], 0);
      states', actions' := Then(ps, states, actions, Timeout(0));
      RunInv(ps, states', actions', |actions'|);
      states', actions' := Timeouts(ps, states', actions', c, phase, retries + 1, sent + 1, n - 1);
    }
  }

  /** The bound on the frames is exact: for any number of retries there is a run in which
      2 * maxRetries frames are sent for a client that then fails. */
  lemma FrameBoundIsExact(ps: Params, c: nat) returns (states: seq<State>, actions: seq<Action>)
    requires ps.Valid() && c < |ps.xids|
    ensures IsRun(ps, states, actions) && c < |states[|actions|].clients|
    ensures states[|actions|].clients[c].phase == Failed && states[|actions|].clients[c].sent == 2 * ps.maxRetries
  {
    var n := ps.maxRetries - 1;
    states, actions := Started(ps, c);
    states, actions := Timeouts(ps, states, actions, c, Discovering, 0, 1, n);
    states, actions := OfferTaken(ps, states, actions, c, n, n + 1, 0);
    states, actions := Timeouts(ps, states, actions, c, Requesting, 0, n + 2, n);
    TimeoutMeans(ps, states[|actions|], 0);
    states, actions := Then(ps, states, actions, Timeout(0));
  }

  /** A client fails only by a NAK with its own xid or by its last retry timing out. */
  lemma FailedMeans(ps: Params, states: seq<State>, actions: seq<Action>, i: nat, c: nat)
    requires IsRun(ps, states, actions) && i < |actions| && c < |ps.xids|
    requires Inv(ps, states[i]) && Inv(ps, states[i + 1])
    requires states[i + 1].clients[c].phase == Failed && states[i].clients[c].phase != Failed
    ensures (actions[i].Timeout? || actions[i].Handle?) && actions[i].w < |states[i].workers|
    ensures var wk := states[i].workers[actions[i].w];
            if actions[i].Timeout? then wk == Waiting(c) && states[i].clients[c].retries + 1 >= ps.maxRetries
            else wk.Handling? && wk.c == c && wk.frame.kind == Nak && wk.frame.xid == ps.xids[c]
  {
    assert StepAt(ps, states, actions, i);
  }
}
