/** The open-addressing hash table of ds-lib: linear probing, load up to 100%,
    backward-shift deletion. The slot arrays refine a finite map. */
module HashTables {
  import opened Wrappers
  import opened Probing

  class HashTable<K(==), E> {
    const layout: Layout<K, E>
    const zero: E
    const buckets: array<E>
    const occupied: array<bool>
    var elemCount: nat

    /** The map the table stores. */
    ghost var contents: map<K, E>
    /** A slot that no stored element's search path crosses. */
    ghost var cut: nat

    ghost const Repr: set<object>

    ghost predicate Shape() {
      && layout.n > 0
      && buckets.Length == occupied.Length == layout.n
      && buckets as object != occupied as object
      && this as object != buckets as object && this as object != occupied as object
      && Repr == {this, buckets, occupied}
    }

    ghost function Slots(): (s: Slots<E>)
      requires Shape()
      reads buckets, occupied
      ensures |s| == layout.n
      ensures forall i :: Occupied(s, i) <==> 0 <= i < layout.n && occupied[i]
      ensures forall i | 0 <= i < layout.n && occupied[i] :: s[i] == Some(buckets[i])
    {
      seq(layout.n, i requires 0 <= i < layout.n reads buckets, occupied =>
        if occupied[i] then Some(buckets[i]) else None)
    }

    ghost predicate Refines()
      requires Shape()
      reads this, buckets, occupied
    {
      WellFormed(layout, Slots(), cut) && Stores(layout, Slots(), contents)
    }

    ghost predicate Valid()
      reads this, buckets, occupied
    {
      && Shape()
      && elemCount == |contents| <= layout.n
      && forall u {:trigger Opened(this, u)} | Opened(this, u) :: Refines()
    }

    lemma Open()
      requires Valid()
      ensures Refines()
    {
      assert Opened(this, 0);
    }

    /** The stored map, slot by slot. */
    lemma SlotFacts()
      requires Valid()
      ensures forall i | 0 <= i < layout.n && occupied[i] ::
                layout.key(buckets[i]) in contents && contents[layout.key(buckets[i])] == buckets[i]
      ensures forall i, j | 0 <= i < layout.n && 0 <= j < layout.n && occupied[i] && occupied[j]
                            && layout.key(buckets[i]) == layout.key(buckets[j]) :: i == j
    {
      Open();
      var s := Slots();
      assert forall i | 0 <= i < layout.n && occupied[i] :: Occupied(s, i) && s[i].value == buckets[i];
    }

    lemma SlotOf(k: K) returns (i: nat)
      requires Valid() && k in contents
      ensures i < layout.n && occupied[i] && buckets[i] == contents[k] && layout.key(buckets[i]) == k
    {
      Open();
      i :| Holds(layout, Slots(), i, k);
    }

    constructor (n: nat, hash: K -> nat, key: E -> K, zero: E)
      requires n > 0
      ensures Valid() && fresh(Repr)
      ensures layout == Layout(n, hash, key) && contents == map[]
    {
      this.layout := Layout(n, hash, key);
      this.zero := zero;
      buckets := new E[n](_ => zero);
      occupied := new bool[n];
      elemCount, contents, cut := 0, map[], 0;
      Repr := {this, buckets, occupied};
      new;
      Clear();
    }

    method Clear()
      requires Shape()
      modifies this, buckets, occupied
      ensures Valid() && contents == map[]
    {
      for i := 0 to layout.n
        invariant forall j | 0 <= j < i :: !Occupied(Slots(), j)
      {
        ClearSlot(i);
      }
      elemCount, contents, cut := 0, map[], 0;
    }

    method ClearSlot(i: nat)
      requires Shape() && i < layout.n
      modifies buckets, occupied
      ensures Slots() == old(Slots())[i := None]
    {
      occupied[i] := false;
      buckets[i] := zero;
    }

    method FillSlot(i: nat, e: E)
      requires Shape() && i < layout.n
      modifies buckets, occupied
      ensures Slots() == old(Slots())[i := Some(e)]
    {
      occupied[i] := true;
      buckets[i] := e;
    }

    /** The probing loop shared by find, insert and delete: it ends on the key's
        slot, on a free slot, or back at the start of a table without free slots. */
    method Probe(k: K) returns (i: nat, found: bool)
      requires Valid()
      ensures i < layout.n
      ensures found <==> k in contents
      ensures found ==> occupied[i] && layout.key(buckets[i]) == k && contents[k] == buckets[i]
      ensures !found && !occupied[i] ==> Probed(layout, Slots(), k, i)
      ensures !found && occupied[i] ==> |contents| == layout.n
    {
      Open();
      var start := layout.hash(k) % layout.n;
      i, found := start, false;
      assert start == layout.Home(k);
      while occupied[i]
        invariant i < layout.n && Probed(layout, Slots(), k, i)
        decreases layout.n - Dist(start, i, layout.n)
      {
        if layout.key(buckets[i]) == k {
          return i, true;
        }
        ProbeStep(layout, Slots(), k, i);
        i := Succ(i, layout.n);
        if i == start {
          FullIffAllOccupied(layout, Slots(), cut, contents);
          return i, false;
        }
      }
      ProbeMiss(layout, Slots(), k, i);
    }

    /** Lookup. The result is the slot the C function returns a pointer to. */
    method Find(k: K) returns (r: Option<nat>)
      requires Valid()
      ensures r.Some? <==> k in contents
      ensures r.Some? ==> r.value < layout.n && occupied[r.value] && layout.key(buckets[r.value]) == k
                          && buckets[r.value] == contents[k]
    {
      var i, found := Probe(k);
      r := if found then Some(i) else None;
    }

    /** Writing through the pointer a lookup returned. */
    method Overwrite(i: nat, e: E)
      requires Valid() && i < layout.n && occupied[i] && layout.key(buckets[i]) == layout.key(e)
      modifies this, buckets, occupied
      ensures Valid() && contents == old(contents)[layout.key(e) := e]
    {
      Open();
      OverwriteKeeps(layout, Slots(), cut, contents, i, e);
      FillSlot(i, e);
      UpdateSize(contents, layout.key(e), e);
      contents := contents[layout.key(e) := e];
    }

    /** Insertion fails exactly on a full table, even for a key already stored. */
    method Insert(e: E) returns (ok: bool)
      requires Valid()
      modifies this, buckets, occupied
      ensures Valid()
      ensures ok <==> old(|contents|) < layout.n
      ensures contents == if ok then old(contents)[layout.key(e) := e] else old(contents)
    {
      if elemCount == layout.n {
        return false;
      }
      var i, found := Probe(layout.key(e));
      if found {
        Overwrite(i, e);
        return true;
      }
      if occupied[i] {
        return false;
      }
      InsertAt(i, e);
      return true;
    }

    method InsertAt(i: nat, e: E)
      requires Valid() && i < layout.n && !occupied[i] && elemCount < layout.n
      requires Probed(layout, Slots(), layout.key(e), i)
      modifies this, buckets, occupied
      ensures Valid() && contents == old(contents)[layout.key(e) := e]
    {
      Open();
      FillKeeps(layout, Slots(), cut, contents, i, e);
      UpdateSize(contents, layout.key(e), e);
      ghost var s := Slots()[i := Some(e)];
      contents, cut := contents[layout.key(e) := e], i;
      elemCount := elemCount + 1;
      FillSlot(i, e);
      assert Slots() == s;
    }

    /** Replacement succeeds exactly for stored keys. */
    method Replace(e: E) returns (ok: bool)
      requires Valid()
      modifies this, buckets, occupied
      ensures Valid()
      ensures ok <==> layout.key(e) in old(contents)
      ensures contents == if ok then old(contents)[layout.key(e) := e] else old(contents)
    {
      var r := Find(layout.key(e));
      if r.None? {
        return false;
      }
      Overwrite(r.value, e);
      return true;
    }

    /** Backward-shift deletion removes exactly the given key. */
    method Delete(k: K) returns (ok: bool)
      requires Valid()
      modifies this, buckets, occupied
      ensures Valid()
      ensures ok <==> k in old(contents)
      ensures contents == old(contents) - {k}
    {
      var i, found := Probe(k);
      if !found {
        return false;
      }
      DeleteAt(i, k);
      return true;
    }

    method DeleteAt(i: nat, k: K)
      requires Valid() && i < layout.n && occupied[i] && layout.key(buckets[i]) == k
      modifies this, buckets, occupied
      ensures Valid() && contents == old(contents) - {k}
    {
      Open();
      ClearStarts(layout, Slots(), cut, contents, i, k);
      MinusSize(contents, {k});
      ghost var s := Slots()[i := None];
      elemCount := elemCount - 1;
      contents := contents - {k};
      ClearSlot(i);
      assert Slots() == s;
      ShiftBack(i);
    }

    /** The second loop of deletion: visit the following slots until a free one or
        the start is met. */
    method ShiftBack(start: nat)
      requires Shape() && start < layout.n && cut < layout.n
      requires Shifting(layout, Slots(), cut, start, Rank(start, cut, layout.n) + 1)
      requires Stores(layout, Slots(), contents)
      modifies buckets, occupied
      ensures WellFormed(layout, Slots(), cut) && Stores(layout, Slots(), contents)
    {
      var next: nat := Succ(start, layout.n);
      ghost var hole: nat, passedCut := start, start == cut;
      ProgressStarts(layout, Slots(), cut, contents, start);
      while occupied[next]
        invariant next < layout.n && (next == start ==> !occupied[next])
        invariant Progress(layout, Slots(), cut, contents, start, hole, next, passedCut)
        decreases Dist(next, start, layout.n)
      {
        hole, passedCut := Visit(start, next, hole, passedCut);
        next := Succ(next, layout.n);
        if next == start {
          break;
        }
      }
      ProgressEnds(layout, Slots(), cut, contents, start, hole, next, passedCut);
    }

    /** The body of that loop: move the element at `p` to the first free slot on
        its path, if there is one. Past the cut there is none. */
    method Visit(ghost start: nat, p: nat, ghost hole: nat, ghost passedCut: bool)
      returns (ghost hole': nat, ghost passedCut': bool)
      requires Shape() && p < layout.n && occupied[p]
      requires Progress(layout, Slots(), cut, contents, start, hole, p, passedCut)
      modifies buckets, occupied
      ensures Progress(layout, Slots(), cut, contents, start, hole', Succ(p, layout.n), passedCut')
    {
      hole', passedCut' := hole, passedCut || p == cut;
      var home := layout.hash(layout.key(buckets[p])) % layout.n;
      assert home == layout.Home(layout.key(Slots()[p].value));
      var movable: nat := p;
      if home != p {
        movable := FirstFree(home, p);
      }
      ProgressVisits(layout, Slots(), cut, contents, start, hole, p, passedCut, movable);
      if movable != p {
        ghost var s := Moved(Slots(), movable, p);
        FillSlot(movable, buckets[p]);
        ClearSlot(p);
        assert Slots() == s;
        hole' := p;
      }
    }

    /** The inner loop of deletion: the first free slot from `home` up to `p`. */
    method FirstFree(home: nat, p: nat) returns (i: nat)
      requires Shape() && home < layout.n && p < layout.n
      ensures i < layout.n && (i == p || (!occupied[i] && OnPath(home, p, i, layout.n)))
      ensures forall q | 0 <= q < layout.n && OnPath(home, i, q, layout.n) :: occupied[q]
    {
      i := home;
      while i != p
        invariant i < layout.n && Dist(home, i, layout.n) <= Dist(home, p, layout.n)
        invariant forall q | 0 <= q < layout.n && OnPath(home, i, q, layout.n) :: occupied[q]
        decreases Dist(i, p, layout.n)
      {
        if !occupied[i] {
          return;
        }
        i := Succ(i, layout.n);
      }
    }

    method Size() returns (r: nat)
      requires Valid()
      ensures r == |contents|
    {
      r := elemCount;
    }
  }
}
