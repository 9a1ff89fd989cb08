/** The geometry of linear probing: what a slot array must look like for lookups
    to be right, and how backward-shift deletion keeps it so. */
module Probing {
  import opened Wrappers

  /** How a table of `n` slots places elements. */
  datatype Layout<!K, !E> = Layout(n: nat, hash: K -> nat, key: E -> K) {
    function Home(k: K): (h: nat)
      requires n > 0
      ensures h < n
    {
      hash(k) % n
    }
  }

  type Slots<E> = seq<Option<E>>

  /** The slot after `i`, cyclically. */
  function Succ(i: nat, n: nat): (j: nat)
    requires i < n
    ensures j < n && j == (i + 1) % n
  {
    if i + 1 == n then 0 else i + 1
  }

  /** Number of forward steps from slot `a` to slot `b`. */
  function Dist(a: nat, b: nat, n: nat): (d: nat)
    requires a < n && b < n
    ensures d < n
  {
    if a <= b then b - a else b - a + n
  }

  /** Slot `q` is probed before slot `p` by a search that starts at `home`. */
  predicate OnPath(home: nat, p: nat, q: nat, n: nat)
    requires home < n && p < n && q < n
  {
    Dist(home, q, n) < Dist(home, p, n)
  }

  /** Position of a slot when the cycle is opened just after `cut`. */
  function Rank(i: nat, cut: nat, n: nat): (r: nat)
    requires i < n && cut < n
    ensures r < n
  {
    if i > cut then i - cut - 1 else i + n - cut - 1
  }

  /** A path avoids `cut` exactly when it runs forward in the opened cycle. */
  lemma PathByRank(home: nat, p: nat, cut: nat, n: nat)
    requires home < n && p < n && cut < n
    ensures !OnPath(home, p, cut, n) <==> Rank(home, cut, n) <= Rank(p, cut, n)
    ensures !OnPath(home, p, cut, n) ==>
              forall q {:trigger OnPath(home, p, q, n)} | 0 <= q < n ::
                OnPath(home, p, q, n) <==> Rank(home, cut, n) <= Rank(q, cut, n) < Rank(p, cut, n)
  {
  }

  ghost predicate Occupied<E>(s: Slots<E>, p: int) {
    0 <= p < |s| && s[p].Some?
  }

  ghost predicate Holds<K, E>(lay: Layout<K, E>, s: Slots<E>, p: int, k: K) {
    Occupied(s, p) && lay.key(s[p].value) == k
  }

  /** Every slot a search passes before reaching a stored element is occupied. */
  ghost predicate PathsOccupied<K, E>(lay: Layout<K, E>, s: Slots<E>)
    requires |s| == lay.n > 0
  {
    forall p, q {:trigger OnPath(lay.Home(lay.key(s[p].value)), p, q, lay.n)}
      | Occupied(s, p) && 0 <= q < |s| && OnPath(lay.Home(lay.key(s[p].value)), p, q, lay.n) ::
      Occupied(s, q)
  }

  /** No stored element's search path crosses slot `cut`. */
  ghost predicate IsCut<K, E>(lay: Layout<K, E>, s: Slots<E>, cut: nat)
    requires |s| == lay.n > 0
  {
    && cut < lay.n
    && forall p | Occupied(s, p) :: !OnPath(lay.Home(lay.key(s[p].value)), p, cut, lay.n)
  }

  ghost predicate DistinctKeys<K, E>(lay: Layout<K, E>, s: Slots<E>) {
    forall p, q {:trigger lay.key(s[p].value), lay.key(s[q].value)}
      | Occupied(s, p) && Occupied(s, q) && lay.key(s[p].value) == lay.key(s[q].value) :: p == q
  }

  ghost predicate WellFormed<K, E>(lay: Layout<K, E>, s: Slots<E>, cut: nat) {
    && |s| == lay.n > 0
    && PathsOccupied(lay, s)
    && IsCut(lay, s, cut)
    && DistinctKeys(lay, s)
  }

  /** The slots store exactly the finite map `m`. */
  ghost predicate Stores<K, E>(lay: Layout<K, E>, s: Slots<E>, m: map<K, E>) {
    && (forall p | Occupied(s, p) :: lay.key(s[p].value) in m && m[lay.key(s[p].value)] == s[p].value)
    && (forall k | k in m :: exists p :: Holds(lay, s, p, k))
  }

  // ----- Lookup ------------------------------------------------------------

  /** All slots probed before `p` from `home` are occupied by other keys. */
  ghost predicate Probed<K, E>(lay: Layout<K, E>, s: Slots<E>, k: K, p: nat)
    requires |s| == lay.n > 0 && p < lay.n
  {
    forall q | 0 <= q < |s| && OnPath(lay.Home(k), p, q, lay.n) ::
      Occupied(s, q) && !Holds(lay, s, q, k)
  }

  /** A search that stops at a free slot has seen enough. */
  lemma ProbeMiss<K, E>(lay: Layout<K, E>, s: Slots<E>, k: K, p: nat)
    requires |s| == lay.n > 0 && p < lay.n
    requires PathsOccupied(lay, s) && Probed(lay, s, k, p) && !Occupied(s, p)
    ensures forall q :: !Holds(lay, s, q, k)
  {
    forall q | Occupied(s, q) ensures !Holds(lay, s, q, k) {
      assert q == p || OnPath(lay.Home(k), q, p, lay.n) || OnPath(lay.Home(k), p, q, lay.n);
    }
  }

  /** One more probe. */
  lemma ProbeStep<K, E>(lay: Layout<K, E>, s: Slots<E>, k: K, p: nat)
    requires |s| == lay.n > 0 && p < lay.n
    requires Probed(lay, s, k, p) && Occupied(s, p) && !Holds(lay, s, p, k)
    ensures Succ(p, lay.n) != lay.Home(k) ==> Probed(lay, s, k, Succ(p, lay.n))
    ensures Succ(p, lay.n) == lay.Home(k) ==> forall q | 0 <= q < |s| :: Occupied(s, q) && !Holds(lay, s, q, k)
  {
    var h := lay.Home(k);
    forall q | 0 <= q < |s| && (Succ(p, lay.n) == h || OnPath(h, Succ(p, lay.n), q, lay.n))
      ensures Occupied(s, q) && !Holds(lay, s, q, k)
    {
      assert q == p || OnPath(h, p, q, lay.n);
    }
  }

  // ----- Insertion ---------------------------------------------------------

  /** Filling the free slot where the search for a new key ended keeps the table
      well formed, with the filled slot itself as the new cut. */
  lemma FillKeeps<K, E>(lay: Layout<K, E>, s: Slots<E>, cut: nat, m: map<K, E>, p: nat, e: E)
    requires WellFormed(lay, s, cut) && Stores(lay, s, m)
    requires p < lay.n && !Occupied(s, p) && Probed(lay, s, lay.key(e), p)
    ensures lay.key(e) !in m
    ensures WellFormed(lay, s[p := Some(e)], p)
    ensures Stores(lay, s[p := Some(e)], m[lay.key(e) := e])
  {
    var k := lay.key(e);
    ProbeMiss(lay, s, k, p);
    var t, m' := s[p := Some(e)], m[k := e];
    assert Holds(lay, t, p, k);
    forall k' | k' in m' ensures exists q :: Holds(lay, t, q, k') {
      if k' != k {
        var q :| Holds(lay, s, q, k');
        assert Holds(lay, t, q, k');
      }
    }
    forall q | Occupied(t, q) ensures !OnPath(lay.Home(lay.key(t[q].value)), q, p, lay.n) {
      if q != p { assert Occupied(s, q); }
    }
  }

  /** Overwriting an element by one with the same key. */
  lemma OverwriteKeeps<K, E>(lay: Layout<K, E>, s: Slots<E>, cut: nat, m: map<K, E>, p: nat, e: E)
    requires WellFormed(lay, s, cut) && Stores(lay, s, m) && Holds(lay, s, p, lay.key(e))
    ensures WellFormed(lay, s[p := Some(e)], cut)
    ensures Stores(lay, s[p := Some(e)], m[lay.key(e) := e])
  {
    var k, t := lay.key(e), s[p := Some(e)];
    var m' := m[k := e];
    assert forall q :: Occupied(t, q) <==> Occupied(s, q);
    forall k' | k' in m' ensures exists q :: Holds(lay, t, q, k') {
      if k' == k {
        assert Holds(lay, t, p, k');
      } else {
        var q :| Holds(lay, s, q, k');
        assert Holds(lay, t, q, k');
      }
    }
  }

  // ----- Deletion ----------------------------------------------------------

  /** The state of the shift loop. One slot `hole` is free although it may lie on
      the path of an element that was not visited yet; elements of rank below
      `done` were visited. */
  ghost predicate Shifting<K, E>(lay: Layout<K, E>, s: Slots<E>, cut: nat, hole: nat, done: nat) {
    && |s| == lay.n > 0 && cut < lay.n && hole < lay.n
    && !Occupied(s, hole)
    && Rank(hole, cut, lay.n) < done <= lay.n
    && IsCut(lay, s, cut)
    && DistinctKeys(lay, s)
    && forall p, q {:trigger OnPath(lay.Home(lay.key(s[p].value)), p, q, lay.n)}
         | Occupied(s, p) && 0 <= q < |s| && OnPath(lay.Home(lay.key(s[p].value)), p, q, lay.n) ::
         Occupied(s, q) || (q == hole && done <= Rank(p, cut, lay.n))
  }

  /** Clearing the slot of the deleted key starts the shift. */
  lemma ClearStarts<K, E>(lay: Layout<K, E>, s: Slots<E>, cut: nat, m: map<K, E>, p: nat, k: K)
    requires WellFormed(lay, s, cut) && Stores(lay, s, m) && Holds(lay, s, p, k)
    ensures Shifting(lay, s[p := None], cut, p, Rank(p, cut, lay.n) + 1)
    ensures k in m && Stores(lay, s[p := None], m - {k})
  {
    var t := s[p := None];
    assert forall q :: Occupied(t, q) ==> Occupied(s, q);
    forall p', q | Occupied(t, p') && 0 <= q < |t| && OnPath(lay.Home(lay.key(t[p'].value)), p', q, lay.n)
      ensures Occupied(t, q) || (q == p && Rank(p, cut, lay.n) + 1 <= Rank(p', cut, lay.n))
    {
      assert Occupied(s, p') && Occupied(s, q);
      PathByRank(lay.Home(lay.key(t[p'].value)), p', cut, lay.n);
    }
    forall k' | k' in m - {k} ensures exists q :: Holds(lay, t, q, k') {
      var q :| Holds(lay, s, q, k');
      assert Holds(lay, t, q, k');
    }
  }

  /** The element visited next has at most one free slot on its path, the hole. */
  lemma VisitKeeps<K, E>(lay: Layout<K, E>, s: Slots<E>, cut: nat, hole: nat, p: nat)
    requires p < lay.n && cut < lay.n && Shifting(lay, s, cut, hole, Rank(p, cut, lay.n))
    requires Occupied(s, p) && !OnPath(lay.Home(lay.key(s[p].value)), p, hole, lay.n)
    ensures Shifting(lay, s, cut, hole, Rank(p, cut, lay.n) + 1)
  {
  }

  /** The slots after the element at `p` was moved to `hole`. */
  ghost function Moved<E>(s: Slots<E>, hole: nat, p: nat): Slots<E>
    requires hole < |s| && p < |s|
  {
    s[hole := s[p]][p := None]
  }

  lemma MoveKeepsStores<K, E>(lay: Layout<K, E>, s: Slots<E>, hole: nat, p: nat, m: map<K, E>)
    requires Occupied(s, p) && hole < |s| && !Occupied(s, hole)
    requires Stores(lay, s, m) && DistinctKeys(lay, s)
    ensures Stores(lay, Moved(s, hole, p), m) && DistinctKeys(lay, Moved(s, hole, p))
  {
    var t := Moved(s, hole, p);
    forall k | k in m ensures exists q :: Holds(lay, t, q, k) {
      var q :| Holds(lay, s, q, k);
      assert Holds(lay, t, if q == p then hole else q, k);
    }
  }

  /** What a move does to one slot `q` on the path of one element at `p'`. */
  lemma MovedPath<K, E>(lay: Layout<K, E>, s: Slots<E>, cut: nat, hole: nat, p: nat, p': nat, q: nat)
    requires p < lay.n && cut < lay.n && Shifting(lay, s, cut, hole, Rank(p, cut, lay.n))
    requires Occupied(s, p) && OnPath(lay.Home(lay.key(s[p].value)), p, hole, lay.n)
    requires q < lay.n && Occupied(Moved(s, hole, p), p')
    requires OnPath(lay.Home(lay.key(Moved(s, hole, p)[p'].value)), p', q, lay.n)
    ensures q != cut
    ensures Occupied(Moved(s, hole, p), q) || (q == p && Rank(p, cut, lay.n) + 1 <= Rank(p', cut, lay.n))
  {
    var from := if p' == hole then p else p';
    assert Occupied(s, from) && Moved(s, hole, p)[p'] == s[from];
    var home := lay.Home(lay.key(s[from].value));
    assert OnPath(home, from, q, lay.n);
    assert Occupied(s, q) || q == hole;
    PathByRank(home, from, cut, lay.n);
  }

  /** Moving the visited element into the hole moves the hole to its old slot. */
  lemma MoveKeeps<K, E>(lay: Layout<K, E>, s: Slots<E>, cut: nat, hole: nat, p: nat)
    requires p < lay.n && cut < lay.n && Shifting(lay, s, cut, hole, Rank(p, cut, lay.n))
    requires Occupied(s, p) && OnPath(lay.Home(lay.key(s[p].value)), p, hole, lay.n)
    requires DistinctKeys(lay, Moved(s, hole, p))
    ensures Shifting(lay, Moved(s, hole, p), cut, p, Rank(p, cut, lay.n) + 1)
  {
    var t := Moved(s, hole, p);
    forall p', q | Occupied(t, p') && 0 <= q < |t| && OnPath(lay.Home(lay.key(t[p'].value)), p', q, lay.n)
      ensures q != cut
      ensures Occupied(t, q) || (q == p && Rank(p, cut, lay.n) + 1 <= Rank(p', cut, lay.n))
    {
      MovedPath(lay, s, cut, hole, p, p', q);
    }
  }

  /** The shift may stop at a free slot: nothing beyond it is affected. */
  lemma StopAtFree<K, E>(lay: Layout<K, E>, s: Slots<E>, cut: nat, hole: nat, p: nat)
    requires p < lay.n && cut < lay.n && Shifting(lay, s, cut, hole, Rank(p, cut, lay.n))
    requires !Occupied(s, p)
    ensures WellFormed(lay, s, cut)
  {
    forall p', q | Occupied(s, p') && 0 <= q < |s| && OnPath(lay.Home(lay.key(s[p'].value)), p', q, lay.n)
      ensures Occupied(s, q)
    {
      var home := lay.Home(lay.key(s[p'].value));
      PathByRank(home, p', cut, lay.n);
      assert OnPath(home, p', p, lay.n) ==> Occupied(s, p);
    }
  }

  /** The shift loop before it looks at slot `next`: all slots of lower rank were
      visited, or the cut was passed and nothing is left to repair. */
  ghost predicate Progress<K, E>(lay: Layout<K, E>, s: Slots<E>, cut: nat, m: map<K, E>,
                                 start: nat, hole: nat, next: nat, passedCut: bool)
  {
    && |s| == lay.n && start < lay.n && next < lay.n && cut < lay.n
    && Stores(lay, s, m)
    && if passedCut then WellFormed(lay, s, cut)
       else Shifting(lay, s, cut, hole, Rank(next, cut, lay.n)) && Rank(start, cut, lay.n) < Rank(next, cut, lay.n)
  }

  /** Or when the cut is passed: every element was visited. */
  lemma StopAtCut<K, E>(lay: Layout<K, E>, s: Slots<E>, cut: nat, hole: nat)
    requires Shifting(lay, s, cut, hole, lay.n)
    ensures WellFormed(lay, s, cut)
  {
  }

  lemma ProgressStarts<K, E>(lay: Layout<K, E>, s: Slots<E>, cut: nat, m: map<K, E>, start: nat)
    requires start < lay.n && cut < lay.n && Stores(lay, s, m)
    requires Shifting(lay, s, cut, start, Rank(start, cut, lay.n) + 1)
    ensures Progress(lay, s, cut, m, start, start, Succ(start, lay.n), start == cut)
  {
    if start == cut {
      StopAtCut(lay, s, cut, start);
    }
  }

  /** A visit that found the free slot `movable` on the path of the element at
      `p` (or none, when `movable == p`). */
  lemma ProgressVisits<K, E>(lay: Layout<K, E>, s: Slots<E>, cut: nat, m: map<K, E>,
                             start: nat, hole: nat, p: nat, passedCut: bool, movable: nat)
    requires Progress(lay, s, cut, m, start, hole, p, passedCut) && Occupied(s, p)
    requires movable < lay.n
    requires movable != p ==> !Occupied(s, movable) && OnPath(lay.Home(lay.key(s[p].value)), p, movable, lay.n)
    requires movable == p ==>
               forall q | 0 <= q < |s| && OnPath(lay.Home(lay.key(s[p].value)), p, q, lay.n) :: Occupied(s, q)
    ensures movable == p ==> Progress(lay, s, cut, m, start, hole, Succ(p, lay.n), passedCut || p == cut)
    ensures movable != p ==>
              Progress(lay, Moved(s, movable, p), cut, m, start, p, Succ(p, lay.n), passedCut || p == cut)
  {
    if movable != p {
      assert !passedCut && movable == hole;
      MoveKeepsStores(lay, s, hole, p, m);
      MoveKeeps(lay, s, cut, hole, p);
      if p == cut {
        StopAtCut(lay, Moved(s, hole, p), cut, p);
      }
    } else if !passedCut {
      VisitKeeps(lay, s, cut, hole, p);
      if p == cut {
        StopAtCut(lay, s, cut, hole);
      }
    }
  }

  lemma ProgressEnds<K, E>(lay: Layout<K, E>, s: Slots<E>, cut: nat, m: map<K, E>,
                           start: nat, hole: nat, next: nat, passedCut: bool)
    requires Progress(lay, s, cut, m, start, hole, next, passedCut)
    requires next == start || !Occupied(s, next)
    ensures WellFormed(lay, s, cut) && Stores(lay, s, m)
  {
    if !passedCut {
      StopAtFree(lay, s, cut, hole, next);
    }
  }

  // ----- Counting ----------------------------------------------------------

  ghost function KeysBelow<K, E>(lay: Layout<K, E>, s: Slots<E>, i: nat): set<K>
    requires i <= |s|
  {
    set p | 0 <= p < i && Occupied(s, p) :: lay.key(s[p].value)
  }

  lemma {:induction false} KeysBelowCount<K, E>(lay: Layout<K, E>, s: Slots<E>, i: nat)
    requires i <= |s| && DistinctKeys(lay, s)
    requires forall p | 0 <= p < i :: Occupied(s, p)
    ensures |KeysBelow(lay, s, i)| == i
  {
    if i > 0 {
      KeysBelowCount(lay, s, i - 1);
      assert Occupied(s, i - 1);
      var k := lay.key(s[i - 1].value);
      assert k !in KeysBelow(lay, s, i - 1);
      assert KeysBelow(lay, s, i) == KeysBelow(lay, s, i - 1) + {k};
    }
  }

  lemma {:induction false} SubsetCount<T>(a: set<T>, b: set<T>)
    requires a <= b
    ensures |a| <= |b|
  {
    assert b == a + (b - a);
  }

  /** A table storing fewer elements than it has slots has a free slot; no table
      stores more. */
  lemma FullIffAllOccupied<K, E>(lay: Layout<K, E>, s: Slots<E>, cut: nat, m: map<K, E>)
    requires WellFormed(lay, s, cut) && Stores(lay, s, m)
    requires forall p | 0 <= p < lay.n :: Occupied(s, p)
    ensures |m| >= lay.n
  {
    KeysBelowCount(lay, s, lay.n);
    SubsetCount(KeysBelow(lay, s, lay.n), m.Keys);
  }
}
