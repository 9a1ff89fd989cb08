/** The circular byte queue: as an object used by one thread, and as a lock-free
    queue between one producer and one consumer, at the granularity of single reads
    and writes of the shared variables. */
module CQueue {
  import opened Wrappers

  function Next(t: nat, n: nat): (r: nat)
    requires t < n
    ensures r == Ahead(t, 1, n)
  {
    (t + 1) % n
  }

  /** Number of queued bytes, as computed from the indices in unsigned arithmetic. */
  function NumElem(head: uint32, tail: uint32, n: nat): nat
    requires n > 0
  {
    Wrap(Wrap(head - tail) + n) % n
  }

  /** The wrapped expression is the true distance. */
  lemma NumElemIsLength(tail: uint32, len: nat, n: nat)
    requires tail < n && len < n < 0x8000_0000
    ensures NumElem(Ahead(tail, len, n), tail, n) == len
  {
    WrapAdd(Ahead(tail, len, n) - tail, n);
    var d := Ahead(tail, len, n) - tail + n;
    assert Wrap(d) == d;
    ModOnce(d, n);
  }

  // ----- One thread --------------------------------------------------------

  class Queue {
    const buf: array<byte>
    var head: nat
    var tail: nat
    ghost var contents: seq<byte>

    ghost predicate Valid()
      reads this, buf
    {
      && 2 <= buf.Length < 0x8000_0000
      && tail < buf.Length && |contents| < buf.Length
      && head == Ahead(tail, |contents|, buf.Length)
      && forall i | 0 <= i < |contents| :: buf[Ahead(tail, i, buf.Length)] == contents[i]
    }

    constructor (n: nat)
      requires 2 <= n < 0x8000_0000
      ensures Valid() && fresh(buf) && buf.Length == n && contents == []
    {
      buf := new byte[n](_ => 0);
      head, tail, contents := 0, 0, [];
    }

    method IsEmpty() returns (r: bool)
      requires Valid()
      ensures r <==> contents == []
    {
      r := head == tail;
    }

    method IsFull() returns (r: bool)
      requires Valid()
      ensures r <==> |contents| == buf.Length - 1
    {
      r := Next(head, buf.Length) == tail;
    }

    method Count() returns (r: nat)
      requires Valid()
      ensures r == |contents|
    {
      NumElemIsLength(tail, |contents|, buf.Length);
      r := NumElem(head, tail, buf.Length);
    }

    method Push(x: byte) returns (ok: bool)
      requires Valid()
      modifies this, buf
      ensures Valid()
      ensures ok <==> |old(contents)| < buf.Length - 1
      ensures contents == if ok then old(contents) + [x] else old(contents)
    {
      var full := IsFull();
      if full {
        return false;
      }
      buf[head] := x;
      head := Next(head, buf.Length);
      contents := contents + [x];
      return true;
    }

    method Pop() returns (ok: bool, x: byte)
      requires Valid()
      modifies this`tail, this`contents
      ensures Valid()
      ensures ok <==> old(contents) != []
      ensures if ok then x == old(contents)[0] && contents == old(contents)[1..] else contents == old(contents)
    {
      var empty := IsEmpty();
      if empty {
        return false, 0;
      }
      x := buf[tail];
      assert x == contents[0];
      tail := Next(tail, buf.Length);
      contents := contents[1..];
      return true, x;
    }

    method PushAll(xs: seq<byte>) returns (ok: bool)
      requires Valid()
      modifies this, buf
      ensures Valid()
      ensures ok <==> 0 < |xs| <= buf.Length - 1 - |old(contents)|
      ensures contents == if ok then old(contents) + xs else old(contents)
    {
      var count := Count();
      if |xs| == 0 || buf.Length - 1 - count < |xs| {
        return false;
      }
      for i := 0 to |xs|
        invariant Valid() && contents == old(contents) + xs[..i]
      {
        var pushed := Push(xs[i]);
        assert xs[..i + 1] == xs[..i] + [xs[i]];
      }
      return true;
    }

    method PopMany(n: nat) returns (ok: bool, xs: seq<byte>)
      requires Valid()
      modifies this`tail, this`contents
      ensures Valid()
      ensures ok <==> n <= |old(contents)|
      ensures if ok then xs == old(contents)[..n] && contents == old(contents)[n..] else contents == old(contents)
    {
      var count := Count();
      xs := [];
      if count < n {
        return false, [];
      }
      for i := 0 to n
        invariant Valid()
        invariant xs == old(contents)[..i] && contents == old(contents)[i..]
      {
        var popped, x := Pop();
        xs := xs + [x];
      }
      return true, xs;
    }

    /** Peeking pops and then puts the tail index back. */
    method PeekMany(n: nat) returns (ok: bool, xs: seq<byte>)
      requires Valid()
      modifies this`tail, this`contents
      ensures Valid() && contents == old(contents) && tail == old(tail)
      ensures ok <==> n <= |contents|
      ensures ok ==> xs == contents[..n]
    {
      var count := Count();
      if n > count {
        return false, [];
      }
      var saved := tail;
      ghost var all := contents;
      ok, xs := PopMany(n);
      tail, contents := saved, all;
    }
  }

  // ----- One producer, one consumer ----------------------------------------

  /** Where the producer is in a push of `x`. */
  datatype Producer =
    | Idle                      // not pushing
    | SawHead(x: byte)          // has read head, is about to read tail
    | MayWrite(x: byte)         // found the queue not full
    | Wrote(x: byte)            // has written the slot, is about to move head

  /** Where the consumer is in a pop. */
  datatype Consumer =
    | Waiting                   // not popping
    | SawNewHead(head: nat)     // has read head, is about to compare it with tail
    | MayRead                   // found the queue not empty
    | Took(x: byte)             // has read the slot, is about to move tail

  /** Shared variables, the two threads, and what was pushed and popped so far. */
  datatype State = State(buf: seq<byte>, head: nat, tail: nat, prod: Producer, cons: Consumer,
                         pushed: seq<byte>, popped: seq<byte>)

  datatype Action =
    | ReadHead(x: byte) | ReadTail | WriteSlot | MoveHead
    | LookHead | LookTail | ReadSlot | MoveTail

  predicate Enabled(s: State, a: Action) {
    match a
    case ReadHead(_) => s.prod.Idle?
    case ReadTail => s.prod.SawHead?
    case WriteSlot => s.prod.MayWrite?
    case MoveHead => s.prod.Wrote?
    case LookHead => s.cons.Waiting?
    case LookTail => s.cons.SawNewHead?
    case ReadSlot => s.cons.MayRead?
    case MoveTail => s.cons.Took?
  }

  /** One atomic read or write of a shared variable. */
  function Do(s: State, a: Action): State
    requires Enabled(s, a) && s.head < |s.buf| && s.tail < |s.buf|
  {
    var n := |s.buf|;
    match a
    case ReadHead(x) => s.(prod := SawHead(x))
    case ReadTail => s.(prod := if Next(s.head, n) == s.tail then Idle else MayWrite(s.prod.x))
    case WriteSlot => s.(buf := s.buf[s.head := s.prod.x], prod := Wrote(s.prod.x))
    case MoveHead => s.(head := Next(s.head, n), prod := Idle, pushed := s.pushed + [s.prod.x])
    case LookHead => s.(cons := SawNewHead(s.head))
    case LookTail => s.(cons := if s.cons.head == s.tail then Waiting else MayRead)
    case ReadSlot => s.(cons := Took(s.buf[s.tail]))
    case MoveTail => s.(tail := Next(s.tail, n), cons := Waiting, popped := s.popped + [s.cons.x])
  }

  /** Bytes pushed and not yet popped. */
  ghost function InFlight(s: State): int {
    |s.pushed| - |s.popped|
  }

  ghost predicate Inv(s: State) {
    var n, len := |s.buf|, InFlight(s);
    && 2 <= n && s.tail < n
    && 0 <= len < n && s.popped <= s.pushed
    && s.head == Ahead(s.tail, len, n)
    && (forall i | 0 <= i < len :: s.buf[Ahead(s.tail, i, n)] == s.pushed[|s.popped| + i])
    && (s.prod.MayWrite? || s.prod.Wrote? ==> len < n - 1)
    && (s.prod.Wrote? ==> s.buf[s.head] == s.prod.x)
    && (s.cons.SawNewHead? ==> exists seen :: 0 <= seen <= len && s.cons.head == Ahead(s.tail, seen, n))
    && (s.cons.MayRead? || s.cons.Took? ==> len > 0)
    && (s.cons.Took? ==> s.cons.x == s.pushed[|s.popped|])
  }

  lemma ProducerKeepsInv(s: State, a: Action)
    requires Inv(s) && Enabled(s, a) && (a.ReadHead? || a.ReadTail? || a.WriteSlot? || a.MoveHead?)
    ensures Inv(Do(s, a))
  {
    var n := |s.buf|;
    if s.cons.SawNewHead? {
      var seen :| 0 <= seen <= InFlight(s) && s.cons.head == Ahead(s.tail, seen, n);
      assert 0 <= seen <= InFlight(Do(s, a)) && s.cons.head == Ahead(s.tail, seen, n);
    }
  }

  lemma ConsumerKeepsInv(s: State, a: Action)
    requires Inv(s) && Enabled(s, a) && (a.LookHead? || a.LookTail? || a.ReadSlot? || a.MoveTail?)
    ensures Inv(Do(s, a))
  {
    var n, t := |s.buf|, Do(s, a);
    if a.LookHead? {
      assert t.cons.head == Ahead(t.tail, InFlight(t), n);
    }
    if a.ReadSlot? {
      assert s.tail == Ahead(s.tail, 0, n);
    }
    if a.MoveTail? {
      forall i | 0 <= i < InFlight(t) ensures t.buf[Ahead(t.tail, i, n)] == t.pushed[|t.popped| + i] {
        assert Ahead(t.tail, i, n) == Ahead(s.tail, i + 1, n);
      }
    }
  }

  lemma DoKeepsInv(s: State, a: Action)
    requires Inv(s) && Enabled(s, a)
    ensures Inv(Do(s, a))
  {
    if a.ReadHead? || a.ReadTail? || a.WriteSlot? || a.MoveHead? {
      ProducerKeepsInv(s, a);
    } else {
      ConsumerKeepsInv(s, a);
    }
  }

  /** A run: any interleaving of the two threads' steps from an empty queue. */
  ghost predicate IsRun(n: nat, states: seq<State>, actions: seq<Action>) {
    && |states| == |actions| + 1 && n >= 2
    && |states[0].buf| == n
    && states[0] == State(states[0].buf, 0, 0, Idle, Waiting, [], [])
    && forall i | 0 <= i < |actions| ::
         && Enabled(states[i], actions[i]) && states[i].head < |states[i].buf| && states[i].tail < |states[i].buf|
         && states[i + 1] == Do(states[i], actions[i])
  }

  lemma {:induction false} RunInv(n: nat, states: seq<State>, actions: seq<Action>, k: nat)
    requires IsRun(n, states, actions) && k <= |actions|
    ensures Inv(states[k]) && |states[k].buf| == n
  {
    if k > 0 {
      RunInv(n, states, actions, k - 1);
      DoKeepsInv(states[k - 1], actions[k - 1]);
    }
  }

  /** Under every interleaving: bytes come out in the order they went in, none lost,
      invented or repeated; at most n - 1 are in flight; and the indices give their
      number. */
  lemma FifoUnderInterleaving(n: nat, states: seq<State>, actions: seq<Action>, k: nat)
    requires IsRun(n, states, actions) && k <= |actions| && n < 0x8000_0000
    ensures var s := states[k];
            && s.popped <= s.pushed
            && 0 <= InFlight(s) <= n - 1
            && s.head < n && s.tail < n && NumElem(s.head, s.tail, n) == InFlight(s)
  {
    RunInv(n, states, actions, k);
    NumElemIsLength(states[k].tail, InFlight(states[k]), n);
  }

  /** No slot is read while it is being written, and a slot that was read still holds
      what was read when the tail moves past it. */
  lemma NoReadWriteConflict(n: nat, states: seq<State>, actions: seq<Action>, k: nat)
    requires IsRun(n, states, actions) && k <= |actions|
    ensures var s := states[k];
            && (s.prod.MayWrite? && (s.cons.MayRead? || s.cons.Took?) ==> s.head != s.tail)
            && (s.cons.Took? && s.tail < |s.buf| ==> s.buf[s.tail] == s.cons.x)
  {
    RunInv(n, states, actions, k);
    var s := states[k];
    assert s.tail == Ahead(s.tail, 0, n);
  }

  /** The consumer has just found head and tail equal, so when it read head nothing was
      in flight. */
  lemma {:induction false} HeadWasRead(n: nat, states: seq<State>, actions: seq<Action>, k: nat) returns (h: nat)
    requires IsRun(n, states, actions) && k <= |actions|
    requires states[k].cons.SawNewHead? && states[k].cons.head == states[k].tail
    ensures h < k && actions[h].LookHead? && InFlight(states[h]) == 0
    decreases k
  {
    RunInv(n, states, actions, k - 1);
    if actions[k - 1].LookHead? {
      h := k - 1;
    } else {
      h := HeadWasRead(n, states, actions, k - 1);
    }
  }

  /** A push is refused exactly when n - 1 bytes are in flight as it reads tail, a pop
      only when nothing was in flight as it read head. */
  lemma RefusalsAreJust(n: nat, states: seq<State>, actions: seq<Action>, k: nat)
    requires IsRun(n, states, actions) && k < |actions|
    ensures actions[k].ReadTail? ==> (states[k + 1].prod.Idle? <==> InFlight(states[k]) == n - 1)
    ensures actions[k].LookTail? && states[k + 1].cons.Waiting? ==>
              exists h :: 0 <= h < k && actions[h].LookHead? && InFlight(states[h]) == 0
  {
    RunInv(n, states, actions, k);
    if actions[k].LookTail? && states[k + 1].cons.Waiting? {
      var h := HeadWasRead(n, states, actions, k);
    }
  }
}
