/**
 * The heap engine (time_heap/heap.go): an array min-heap of timers ordered by
 * deadline, whose adapter keeps every entry's `id` equal to its position, and
 * the drain step that fires due roots.
 *
 * The sift operations the adapter is driven by come from Go's standard
 * `container/heap` (`Push`, `Remove`, `Fix` and their helpers `up` and
 * `down`); they are written out here as that package defines them.
 * The clock is the parameter `now`; delivering a task to the worker pool is
 * recorded by appending it to the ghost sequence `delivered`.
 */
module TimeHeap {
  import opened GoInts
  import opened HeapTimer

  /** An entry with its position erased. */
  function Strip<T>(t: Timer<T>): Timer<T>
  {
    t.(id := 0)
  }

  /** The entries of `s` as a multiset, positions erased. */
  ghost function Bag<T>(s: seq<Timer<T>>): (b: multiset<Timer<T>>)
    ensures |b| == |s|
  {
    if s == [] then multiset{} else Bag(s[..|s| - 1]) + multiset{Strip(s[|s| - 1])}
  }

  /** Every recurring entry of `b` has a non-negative period. */
  ghost predicate PeriodsNonNegative<T>(b: multiset<Timer<T>>)
  {
    forall x :: x in b && x.exType == ExpireEvery ==> x.dura >= 0
  }

  /** No entry of `b` is due before `ts`. */
  ghost predicate NoneBefore<T>(b: multiset<Timer<T>>, ts: int)
  {
    forall x :: x in b ==> ts <= x.ts
  }

  /** The deadlines of `fired` never decrease. */
  ghost predicate Ascending<T>(fired: seq<Timer<T>>)
  {
    forall i, j :: 0 <= i < j < |fired| ==> fired[i].ts <= fired[j].ts
  }

  /** Overwriting one position trades that entry for the new one in the multiset. */
  lemma {:induction false} BagUpdate<T>(s: seq<Timer<T>>, i: int, t: Timer<T>)
    requires 0 <= i < |s|
    ensures Bag(s[i := t]) + multiset{Strip(s[i])} == Bag(s) + multiset{Strip(t)}
  {
    var n := |s| - 1;
    var u := s[i := t];
    assert Bag(u) == Bag(u[..n]) + multiset{Strip(u[n])};
    assert Bag(s) == Bag(s[..n]) + multiset{Strip(s[n])};
    if i < n {
      assert u[..n] == s[..n][i := t] && u[n] == s[n] && s[..n][i] == s[i];
      BagUpdate(s[..n], i, t);
      Shift(Bag(u[..n]), Bag(s[..n]), Strip(s[i]), Strip(t), Strip(s[n]));
    } else {
      assert u[..n] == s[..n];
    }
  }

  /** Multiset algebra: a balanced exchange stays balanced when both sides gain `z`. */
  lemma Shift<X>(a: multiset<X>, b: multiset<X>, x: X, y: X, z: X)
    requires a + multiset{x} == b + multiset{y}
    ensures (a + multiset{z}) + multiset{x} == (b + multiset{z}) + multiset{y}
  {
    calc {
      (a + multiset{z}) + multiset{x};
      (a + multiset{x}) + multiset{z};
      (b + multiset{y}) + multiset{z};
    }
  }

  /** Multiset union with one element cancels. */
  lemma Cancel<X>(a: multiset<X>, b: multiset<X>, x: X)
    requires a + multiset{x} == b + multiset{x}
    ensures a == b
  {
    assert a == a + multiset{x} - multiset{x};
    assert b == b + multiset{x} - multiset{x};
  }

  /** Appending one entry adds it to the multiset. */
  lemma BagSnoc<T>(s: seq<Timer<T>>, t: Timer<T>)
    ensures Bag(s + [t]) == Bag(s) + multiset{Strip(t)}
  {
    assert (s + [t])[..|s|] == s;
  }

  /** Every entry of `s`, stripped, is in its multiset. */
  lemma {:induction false} BagHas<T>(s: seq<Timer<T>>, k: int)
    requires 0 <= k < |s|
    ensures Strip(s[k]) in Bag(s)
  {
    var n := |s| - 1;
    assert Bag(s) == Bag(s[..n]) + multiset{Strip(s[n])};
    if k < n {
      BagHas(s[..n], k);
      assert s[..n][k] == s[k];
    }
  }

  /** Every member of the multiset of `s` is an entry of `s`, stripped. */
  lemma {:induction false} BagOnly<T>(s: seq<Timer<T>>, x: Timer<T>)
    requires x in Bag(s)
    ensures exists k :: 0 <= k < |s| && x == Strip(s[k])
  {
    var n := |s| - 1;
    assert Bag(s) == Bag(s[..n]) + multiset{Strip(s[n])};
    if x != Strip(s[n]) {
      BagOnly(s[..n], x);
      var k :| 0 <= k < n && x == Strip(s[..n][k]);
      assert s[..n][k] == s[k];
    }
  }

  /** `timersHeap.Less` along one edge: `s[k]` is not earlier than its parent. */
  ghost predicate EdgeOrdered<T>(s: seq<Timer<T>>, k: int)
    requires 0 < k < |s|
  {
    s[(k - 1) / 2].ts <= s[k].ts
  }

  /** Heap order on the first `n` entries: none is earlier than its parent. */
  ghost predicate Ordered<T>(s: seq<Timer<T>>, n: int)
    requires n <= |s|
  {
    forall k :: 0 < k < n ==> EdgeOrdered(s, k)
  }

  /** The parent of `j` is no later than the children of `j` among the first `n` entries. */
  ghost predicate ParentBelowChildren<T>(s: seq<Timer<T>>, n: int, j: int)
    requires 0 <= j && n <= |s|
  {
    j > 0 ==>
      && (2 * j + 1 < n ==> s[(j - 1) / 2].ts <= s[2 * j + 1].ts)
      && (2 * j + 2 < n ==> s[(j - 1) / 2].ts <= s[2 * j + 2].ts)
  }

  /**
   * What `up` needs and keeps: heap order on the first `n` entries except
   * possibly the edge into `j`, whose parent is no later than its children.
   */
  ghost predicate UpOrdered<T>(s: seq<Timer<T>>, n: int, j: int)
    requires 0 <= j && n <= |s|
  {
    && (forall k :: 0 < k < n && k != j ==> EdgeOrdered(s, k))
    && ParentBelowChildren(s, n, j)
  }

  /**
   * What `down` needs and keeps: heap order on the first `n` entries except
   * possibly the edges out of `i` and, while the entry still sits at `i0`,
   * the edge into `i0`.
   */
  ghost predicate DownOrdered<T>(s: seq<Timer<T>>, n: int, i0: int, i: int)
    requires 0 <= i && n <= |s|
  {
    && (forall k :: 0 < k < n && (k - 1) / 2 != i && (i != i0 || k != i0) ==> EdgeOrdered(s, k))
    && ParentBelowChildren(s, n, i)
  }

  /** Every entry's `id` is its position. */
  ghost predicate IdsMatch<T>(s: seq<Timer<T>>)
  {
    forall k :: 0 <= k < |s| ==> s[k].id == k
  }

  /** `s` and `s0` have the same length and agree from position `n` on. */
  ghost predicate SameFrom<T>(s: seq<Timer<T>>, s0: seq<Timer<T>>, n: int)
  {
    |s| == |s0| && forall k :: 0 <= n <= k < |s| ==> s[k] == s0[k]
  }

  /** `s` with entries `i` and `j` exchanged, each stamped with its new position. */
  function Swapped<T>(s: seq<Timer<T>>, i: int, j: int): seq<Timer<T>>
    requires 0 <= i < |s| && 0 <= j < |s|
  {
    s[i := s[j].(id := i)][j := s[i].(id := j)]
  }

  /** In heap order the root holds the earliest deadline. */
  lemma {:induction false} RootIsEarliest<T>(s: seq<Timer<T>>, k: int)
    requires Ordered(s, |s|) && 0 <= k < |s|
    ensures s[0].ts <= s[k].ts
    decreases k
  {
    if k > 0 {
      assert EdgeOrdered(s, k);
      RootIsEarliest(s, (k - 1) / 2);
    }
  }

  /** Dropping the last entry keeps the others' order and positions and takes it out of the multiset. */
  /** The root of a heap is one of its entries and no entry is due before it. */
  lemma RootIsLeast<T>(s: seq<Timer<T>>)
    requires Ordered(s, |s|) && |s| > 0
    ensures Strip(s[0]) in Bag(s) && NoneBefore(Bag(s), s[0].ts)
  {
    BagHas(s, 0);
    forall x | x in Bag(s)
      ensures s[0].ts <= x.ts
    {
      BagOnly(s, x);
      var k :| 0 <= k < |s| && x == Strip(s[k]);
      RootIsEarliest(s, k);
    }
  }

  lemma PopStep<T>(s: seq<Timer<T>>, n: int)
    requires n == |s| - 1 && 0 <= n && Ordered(s, n) && IdsMatch(s)
    ensures Ordered(s[..n], n) && IdsMatch(s[..n])
    ensures Bag(s[..n]) + multiset{Strip(s[n])} == Bag(s)
  {
    forall k | 0 < k < n
      ensures EdgeOrdered(s[..n], k)
    {
      assert EdgeOrdered(s, k);
    }
  }

  /** An entry appended to a heap may only be earlier than its parent. */
  lemma PushStep<T>(s: seq<Timer<T>>, x: Timer<T>)
    requires Ordered(s, |s|)
    ensures UpOrdered(s + [x], |s| + 1, |s|)
  {
    var t := s + [x];
    forall k | 0 < k < |s|
      ensures EdgeOrdered(t, k)
    {
      assert EdgeOrdered(s, k);
    }
  }

  /** Overwriting entry `i` of a heap leaves it ordered except around `i`, as `heap.Fix` expects. */
  lemma ReplaceStep<T>(s: seq<Timer<T>>, i: int, x: Timer<T>)
    requires Ordered(s, |s|) && 0 <= i < |s|
    ensures DownOrdered(s[i := x], |s|, i, i)
  {
    var t := s[i := x];
    forall k | 0 < k < |t| && k != i && (k - 1) / 2 != i
      ensures EdgeOrdered(t, k)
    {
      assert EdgeOrdered(s, k);
    }
    ChildrenAfterGrandparent(s, |s|, i);
  }

  /** In heap order the parent of `i` is no later than the children of `i`. */
  lemma ChildrenAfterGrandparent<T>(s: seq<Timer<T>>, n: int, i: int)
    requires 0 <= i && n <= |s| && Ordered(s, |s|)
    ensures ParentBelowChildren(s, n, i)
  {
    if i > 0 && i < |s| {
      assert EdgeOrdered(s, i);
      if 2 * i + 1 < n {
        assert EdgeOrdered(s, 2 * i + 1);
      }
      if 2 * i + 2 < n {
        assert EdgeOrdered(s, 2 * i + 2);
      }
    }
  }

  /**
   * The first step of `heap.Remove`: after the last entry is swapped into
   * position `i`, the first `n` entries are ordered except around `i`.
   */
  lemma RemoveStep<T>(s: seq<Timer<T>>, i: int, n: int)
    requires Ordered(s, |s|)
    requires 0 <= i < n && n == |s| - 1
    ensures DownOrdered(Swapped(s, i, n), n, i, i)
  {
    var t := Swapped(s, i, n);
    forall k | 0 < k < n && k != i && (k - 1) / 2 != i
      ensures EdgeOrdered(t, k)
    {
      assert EdgeOrdered(s, k);
    }
    ChildrenAfterGrandparent(s, n, i);
  }

  /** One step of `up`: swapping `j` with its later parent `i` moves the gap to `i`. */
  lemma SwapUpStep<T>(s: seq<Timer<T>>, s0: seq<Timer<T>>, n: int, i: int, j: int)
    requires 0 < j < n <= |s| && i == (j - 1) / 2 && s[j].ts < s[i].ts
    requires UpOrdered(s, n, j) && SameFrom(s, s0, n)
    ensures UpOrdered(Swapped(s, i, j), n, i) && SameFrom(Swapped(s, i, j), s0, n)
  {
    var t := Swapped(s, i, j);
    forall k | 0 < k < n && k != i
      ensures EdgeOrdered(t, k)
    {
      var p := (k - 1) / 2;
      if k == j {
      } else if p == j {
        assert k == 2 * j + 1 || k == 2 * j + 2;
      } else {
        assert EdgeOrdered(s, k);
      }
    }
    if i > 0 {
      assert EdgeOrdered(s, i);
      var sib := if j == 2 * i + 1 then 2 * i + 2 else 2 * i + 1;
      if sib < n {
        assert EdgeOrdered(s, sib);
      }
    }
  }

  /** `up` stops at the root or below a parent that is no later: the first `n` entries are ordered. */
  lemma UpExit<T>(s: seq<Timer<T>>, n: int, j: int)
    requires 0 <= j && n <= |s| && UpOrdered(s, n, j)
    requires 0 < j < n ==> s[(j - 1) / 2].ts <= s[j].ts
    ensures Ordered(s, n)
  {
  }

  /** One step of `down`: swapping `i` with its earlier child `j` moves the gap to `j`. */
  lemma SwapDownStep<T>(s: seq<Timer<T>>, s0: seq<Timer<T>>, n: int, i0: int, i: int, j: int)
    requires 0 <= i0 <= i < j < n <= |s|
    requires j == 2 * i + 1 || j == 2 * i + 2
    requires s[j].ts < s[i].ts
    requires 2 * i + 1 < n && s[j].ts <= s[2 * i + 1].ts
    requires 2 * i + 2 < n ==> s[j].ts <= s[2 * i + 2].ts
    requires DownOrdered(s, n, i0, i) && SameFrom(s, s0, n)
    ensures DownOrdered(Swapped(s, i, j), n, i0, j) && SameFrom(Swapped(s, i, j), s0, n)
  {
    var t := Swapped(s, i, j);
    forall k | 0 < k < n && (k - 1) / 2 != j
      ensures EdgeOrdered(t, k)
    {
      var p := (k - 1) / 2;
      if k == i {
      } else if p == i {
      } else {
        assert EdgeOrdered(s, k);
      }
    }
    if 2 * j + 1 < n {
      assert EdgeOrdered(s, 2 * j + 1);
    }
    if 2 * j + 2 < n {
      assert EdgeOrdered(s, 2 * j + 2);
    }
  }

  /**
   * `down` stops where the entry is no later than its children: if it moved,
   * the first `n` entries are ordered; if not, only the edge into `i0` may
   * be out of order.
   */
  lemma DownExit<T>(s: seq<Timer<T>>, n: int, i0: int, i: int)
    requires 0 <= i0 <= i <= n <= |s|
    requires DownOrdered(s, n, i0, i)
    requires 2 * i + 1 < n ==> s[i].ts <= s[2 * i + 1].ts
    requires 2 * i + 2 < n ==> s[i].ts <= s[2 * i + 2].ts
    ensures i != i0 ==> Ordered(s, n)
    ensures i == i0 ==> UpOrdered(s, n, i0)
  {
    forall k | 0 < k < n && (i != i0 || k != i0)
      ensures EdgeOrdered(s, k)
    {
      if (k - 1) / 2 == i {
        assert k == 2 * i + 1 || k == 2 * i + 2;
      }
    }
  }

  /** Go's `timersHeap`: the slice `container/heap` sifts. */
  class TimersHeap<T> {
    var timers: seq<Timer<T>>

    ghost predicate Valid()
      reads this
    {
      Ordered(timers, |timers|) && IdsMatch(timers)
    }

    /** `newTimersHeap`. */
    constructor ()
      ensures timers == [] && Valid()
    {
      timers := [];
    }

    /** `Swap`: exchange two entries and stamp each with its new position. */
    method Swap(i: int, j: int)
      requires 0 <= i < |timers| && 0 <= j < |timers|
      modifies this
      ensures timers == Swapped(old(timers), i, j)
      ensures Bag(timers) == Bag(old(timers))
      ensures IdsMatch(old(timers)) ==> IdsMatch(timers)
    {
      ghost var s := timers;
      timers := timers[i := timers[j].(id := i)][j := timers[i].(id := j)];
      ghost var u := s[i := s[j].(id := i)];
      BagUpdate(s, i, s[j].(id := i));
      BagUpdate(u, j, s[i].(id := j));
      assert Strip(u[j]) == Strip(s[j]);
      assert Strip(s[j].(id := i)) == Strip(s[j]) && Strip(s[i].(id := j)) == Strip(s[i]);
      Cancel(Bag(timers), Bag(s), Strip(s[j]));
    }

    /** `Push`: append one entry, stamped with its position. */
    method Push(x: Timer<T>)
      modifies this
      ensures timers == old(timers) + [x.(id := |old(timers)|)]
    {
      timers := timers + [x];
      var n := |timers|;
      timers := timers[n - 1 := timers[n - 1].(id := n - 1)];
    }

    /**
     * `Pop`: remove and return the last entry. The source also clears the
     * vacated slot of the backing array, which the shortened slice no longer
     * shows.
     */
    method Pop() returns (x: Timer<T>)
      requires |timers| > 0
      modifies this
      ensures x == old(timers)[|old(timers)| - 1]
      ensures timers == old(timers)[..|old(timers)| - 1]
    {
      var n := |timers|;
      x := timers[n - 1];
      timers := timers[..n - 1];
    }

    /**
     * `container/heap`'s `up`: move the entry at `j0` towards the root while
     * it is earlier than its parent. Heap order is restored on the first `n`
     * entries; `up` never reaches beyond `j0`. The result is the position the
     * entry settles at (`up` itself does not report it).
     */
    method Up(j0: int, ghost n: int) returns (j: int)
      requires 0 <= j0 && 0 <= n <= |timers| && (j0 < n || j0 == 0)
      requires UpOrdered(timers, n, j0) && IdsMatch(timers)
      modifies this
      ensures IdsMatch(timers) && Bag(timers) == Bag(old(timers)) && SameFrom(timers, old(timers), n)
      ensures Ordered(timers, n)
      ensures 0 <= j <= j0
      ensures j0 < n ==> Strip(timers[j]) == Strip(old(timers)[j0])
    {
      j := j0;
      while true
        invariant 0 <= j <= j0
        invariant IdsMatch(timers) && Bag(timers) == Bag(old(timers)) && SameFrom(timers, old(timers), n)
        invariant UpOrdered(timers, n, j)
        invariant j0 < n ==> Strip(timers[j]) == Strip(old(timers)[j0])
        decreases j
      {
        var i := GoQuo(j - 1, 2);  // parent
        if i == j || !(timers[j].ts < timers[i].ts) {
          UpExit(timers, n, j);
          break;
        }
        SwapUpStep(timers, old(timers), n, i, j);
        Swap(i, j);
        j := i;
      }
    }

    /**
     * `container/heap`'s `down`: move the entry at `i0` towards the leaves
     * of the first `n` entries while a child is earlier, always swapping with
     * the earlier child. Reports whether the entry moved; when it did not,
     * nothing changed. (The source's guard against `2*i+1` overflowing is not
     * needed on unbounded integers.)
     */
    method Down(i0: int, n: int) returns (moved: bool)
      requires 0 <= i0 <= n <= |timers|
      requires DownOrdered(timers, n, i0, i0) && IdsMatch(timers)
      modifies this
      ensures IdsMatch(timers) && Bag(timers) == Bag(old(timers)) && SameFrom(timers, old(timers), n)
      ensures moved ==> Ordered(timers, n)
      ensures !moved ==> timers == old(timers) && UpOrdered(timers, n, i0)
    {
      var i := i0;
      while true
        invariant i0 <= i <= n
        invariant IdsMatch(timers) && Bag(timers) == Bag(old(timers)) && SameFrom(timers, old(timers), n)
        invariant DownOrdered(timers, n, i0, i)
        invariant i == i0 ==> timers == old(timers)
        decreases n - i
      {
        var j1 := 2 * i + 1;
        if j1 >= n {
          DownExit(timers, n, i0, i);
          break;
        }
        var j := j1;  // left child
        var j2 := j1 + 1;
        if j2 < n && timers[j2].ts < timers[j1].ts {
          j := j2;  // right child
        }
        if !(timers[j].ts < timers[i].ts) {
          DownExit(timers, n, i0, i);
          break;
        }
        SwapDownStep(timers, old(timers), n, i0, i, j);
        Swap(i, j);
        i := j;
      }
      moved := i > i0;
    }

    /** `heap.Push`: append the entry and sift it up; returns where it settled. */
    method HeapPush(x: Timer<T>) returns (p: int)
      requires Valid()
      modifies this
      ensures Valid()
      ensures Bag(timers) == Bag(old(timers)) + multiset{Strip(x)}
      ensures 0 <= p < |timers| && timers[p] == x.(id := p)
    {
      BagSnoc(timers, x.(id := |timers|));
      PushStep(timers, x.(id := |timers|));
      Push(x);
      p := Up(|timers| - 1, |timers|);
    }

    /**
     * `heap.Remove`: move the last entry into position `i`, sift it down
     * or, if it did not move, up, then pop the removed entry off the end.
     */
    method Remove(i: int) returns (x: Timer<T>)
      requires Valid() && 0 <= i < |timers|
      modifies this
      ensures Valid()
      ensures |timers| == |old(timers)| - 1
      ensures Strip(x) == Strip(old(timers)[i])
      ensures Bag(timers) + multiset{Strip(x)} == Bag(old(timers))
    {
      var n := |timers| - 1;
      if n != i {
        RemoveStep(timers, i, n);
        Swap(i, n);
        ghost var t := timers;
        Sift(i, n);
        assert timers[n] == t[n];
      }
      assert Strip(timers[n]) == Strip(old(timers)[i]);
      PopStep(timers, n);
      x := Pop();
    }

    /**
     * `heap.Fix`: after the entry at `i` changed, sift it down or, if it did
     * not move, up.
     */
    method Fix(i: int)
      requires 0 <= i && (i < |timers| || i == 0)
      requires DownOrdered(timers, |timers|, i, i) && IdsMatch(timers)
      modifies this
      ensures Valid()
      ensures |timers| == |old(timers)| && Bag(timers) == Bag(old(timers))
    {
      Sift(i, |timers|);
    }

    /**
     * The step `heap.Fix` and `heap.Remove` share: sift the entry at `i`
     * down within the first `n` entries or, if it did not move, up.
     */
    method Sift(i: int, n: int)
      requires 0 <= i && 0 <= n <= |timers| && (i < n || i == 0)
      requires DownOrdered(timers, n, i, i) && IdsMatch(timers)
      modifies this
      ensures IdsMatch(timers) && Bag(timers) == Bag(old(timers)) && SameFrom(timers, old(timers), n)
      ensures Ordered(timers, n)
    {
      var moved := Down(i, n);
      if !moved {
        var _ := Up(i, n);
      }
    }
  }

  /** The tasks of the fired entries, in firing order. */
  function FiredTasks<T>(fired: seq<Timer<T>>): (r: seq<T>)
    ensures |r| == |fired|
    ensures forall k :: 0 <= k < |r| ==> r[k] == fired[k].task
  {
    if fired == [] then [] else FiredTasks(fired[..|fired| - 1]) + [fired[|fired| - 1].task]
  }

  /**
   * The entries a drain puts back: each fired entry of kind `ExpireEvery`,
   * rearmed `dura` after `now`; other kinds are dropped.
   */
  function Rearmed<T>(fired: seq<Timer<T>>, now: int): (r: seq<Timer<T>>)
    ensures |r| <= |fired|
    ensures forall x :: x in r ==> x.exType == ExpireEvery && x.ts == now + x.dura
  {
    if fired == [] then []
    else
      var f := fired[|fired| - 1];
      Rearmed(fired[..|fired| - 1], now) + (if f.exType == ExpireEvery then [f.(ts := now + f.dura)] else [])
  }

  /** Go's `Heap`: the timer heap and the worker pool its due tasks go to. */
  class Heap<T> {
    const timers: TimersHeap<T>
    const workerPoolNum: int
    ghost var delivered: seq<T>

    ghost predicate Valid()
      reads this, timers
    {
      timers.Valid()
    }

    /** `NewAndRun`: an empty heap (starting the workers is not modelled). */
    constructor NewAndRun(workerPoolNum: int)
      requires workerPoolNum >= 0
      ensures Valid() && fresh(timers)
      ensures timers.timers == [] && delivered == [] && this.workerPoolNum == workerPoolNum
    {
      timers := new TimersHeap();
      this.workerPoolNum := workerPoolNum;
      delivered := [];
    }

    /**
     * `Add`: push a new entry due `timeout` after `now` and return its
     * position.
     */
    method Add(et: ExpireType, timeout: int, task: T, now: int) returns (idx: int)
      requires Valid()
      modifies timers
      ensures Valid()
      ensures Bag(timers.timers) == Bag(old(timers.timers)) + multiset{Strip(NewTimer(et, timeout, task, now))}
      ensures 0 <= idx < |timers.timers| && timers.timers[idx] == NewTimer(et, timeout, task, now).(id := idx)
    {
      idx := timers.HeapPush(NewTimer(et, timeout, task, now));
    }

    /** `Remove`: `-1` means no entry; any other handle must be a position. */
    method Remove(idx: int)
      requires Valid() && (idx == -1 || 0 <= idx < |timers.timers|)
      modifies timers
      ensures Valid()
      ensures idx == -1 ==> timers.timers == old(timers.timers)
      ensures idx != -1 ==>
        && |timers.timers| == |old(timers.timers)| - 1
        && Bag(timers.timers) + multiset{Strip(old(timers.timers)[idx])} == Bag(old(timers.timers))
    {
      if idx != -1 {
        var _ := timers.Remove(idx);
      }
    }

    /**
     * One round of `boomTimerFun` with a due root: deliver its task, then
     * rearm it `dura` after `now` if it is of kind `ExpireEvery` or remove it
     * otherwise, and restore heap order. `e` is the root as it was.
     */
    method FireRoot(now: int) returns (ghost e: Timer<T>)
      requires Valid() && |timers.timers| > 0 && Due(timers.timers[0], now)
      modifies this, timers
      ensures Valid()
      ensures e == Strip(old(timers.timers)[0]) && Due(e, now)
      ensures |timers.timers| >= |old(timers.timers)| - 1
      ensures delivered == old(delivered) + [e.task]
      ensures e.exType == ExpireEvery ==>
        Bag(timers.timers) + multiset{e} == Bag(old(timers.timers)) + multiset{e.(ts := now + e.dura)}
      ensures e.exType != ExpireEvery ==> Bag(timers.timers) + multiset{e} == Bag(old(timers.timers))
    {
      var entry := timers.timers[0];
      e := Strip(entry);
      delivered := delivered + [entry.task];
      if entry.exType == ExpireEvery {
        var rearmed := entry.(ts := now + entry.dura);
        ghost var s := timers.timers;
        BagUpdate(s, 0, rearmed);
        ReplaceStep(s, 0, rearmed);
        assert Strip(s[0]) == e && Strip(rearmed) == e.(ts := now + e.dura);
        timers.timers := timers.timers[0 := rearmed];
      } else {
        var _ := timers.Remove(entry.id);
      }
      timers.Fix(0);
    }

    /**
     * The loop of `boomTimerFun`: for at most as many rounds as the heap had
     * entries, fire the root while it is due. `fired` lists the fired
     * entries as they were when they fired; the loop stops early only at a
     * root that is not due.
     */
    method FireDue(now: int) returns (ghost fired: seq<Timer<T>>)
      requires Valid()
      modifies this, timers
      ensures Valid()
      ensures |fired| <= |old(timers.timers)|
      ensures |fired| < |old(timers.timers)| ==> |timers.timers| > 0 && !Due(timers.timers[0], now)
      ensures Drained(old(timers.timers), old(delivered), Bag(timers.timers), delivered, fired, now)
    {
      var hlen := |timers.timers|;
      fired := [];
      var i := 0;
      while i < hlen
        invariant 0 <= i <= hlen && |fired| == i
        invariant timers.Valid()
        invariant |timers.timers| >= hlen - i
        invariant |fired| == 0 ==> timers.timers == old(timers.timers)
        invariant Drained(old(timers.timers), old(delivered), Bag(timers.timers), delivered, fired, now)
      {
        if Due(timers.timers[0], now) {
          ghost var before, delivered0 := Bag(timers.timers), delivered;
          RootIsLeast(timers.timers);
          ghost var e := FireRoot(now);
          DrainedSnoc(old(timers.timers), old(delivered), before, Bag(timers.timers), delivered0, fired, e, now);
          fired := fired + [e];
        } else {
          break;
        }
        i := i + 1;
      }
    }

    /**
     * `boomTimerFun`: fire the due roots, rearming `ExpireEvery` entries at
     * `now + dura` and removing the others, then return how long until the
     * new root is due (0 for an empty heap) and how many entries remain.
     * The first entry fired is the root, and, unless a recurring entry has a
     * negative period, the entries fire in deadline order and none left
     * behind is due before the last one fired.
     */
    method Drain(now: int) returns (nextBoomTime: int, hlen: int, ghost fired: seq<Timer<T>>)
      requires Valid()
      modifies this, timers
      ensures Valid()
      ensures |fired| <= |old(timers.timers)|
      ensures forall f :: f in fired ==> Due(f, now)
      ensures |fired| < |old(timers.timers)| ==> forall k :: 0 <= k < |timers.timers| ==> !Due(timers.timers[k], now)
      ensures Bag(timers.timers) + multiset(fired) == Bag(old(timers.timers)) + multiset(Rearmed(fired, now))
      ensures delivered == old(delivered) + FiredTasks(fired)
      ensures hlen == |timers.timers|
      ensures nextBoomTime == if hlen > 0 then timers.timers[0].ts - now else 0
      ensures forall k :: 0 <= k < hlen ==> now + nextBoomTime <= timers.timers[k].ts
      ensures |fired| > 0 ==> fired[0] == Strip(old(timers.timers)[0])
      ensures PeriodsNonNegative(Bag(old(timers.timers))) ==>
        && Ascending(fired)
        && (|fired| > 0 ==> NoneBefore(Bag(timers.timers), fired[|fired| - 1].ts))
    {
      fired := FireDue(now);
      hlen := |timers.timers|;
      if hlen > 0 {
        nextBoomTime := timers.timers[0].ts - now;
        forall k | 0 <= k < hlen
          ensures now + nextBoomTime <= timers.timers[k].ts
        {
          RootIsEarliest(timers.timers, k);
        }
      } else {
        nextBoomTime := 0;
      }
    }
  }

  /**
   * The drain's order: the recurring entries have non-negative periods, the
   * fired deadlines never decrease, and nothing in `bag` is due before the
   * last one fired.
   */
  ghost predicate InOrder<T>(bag: multiset<Timer<T>>, fired: seq<Timer<T>>)
  {
    && PeriodsNonNegative(bag)
    && Ascending(fired)
    && (|fired| > 0 ==> NoneBefore(bag, fired[|fired| - 1].ts))
  }

  /**
   * Firing the earliest entry `e`, due at `now`, keeps the order: a rearmed
   * copy is due `dura >= 0` after `now`, which is past `e`'s deadline.
   */
  lemma InOrderSnoc<T>(before: multiset<Timer<T>>, after: multiset<Timer<T>>, fired: seq<Timer<T>>, e: Timer<T>, now: int)
    requires InOrder(before, fired)
    requires e in before && NoneBefore(before, e.ts) && Due(e, now)
    requires e.exType == ExpireEvery ==> after + multiset{e} == before + multiset{e.(ts := now + e.dura)}
    requires e.exType != ExpireEvery ==> after + multiset{e} == before
    ensures InOrder(after, fired + [e])
  {
    var e' := e.(ts := now + e.dura);
    forall x | x in after
      ensures e.ts <= x.ts && (x.exType == ExpireEvery ==> x.dura >= 0)
    {
      assert x in after + multiset{e};
      if e.exType == ExpireEvery && x == e' {
      } else {
        assert x in before;
      }
    }
    var f := fired + [e];
    forall i, j | 0 <= i < j < |f|
      ensures f[i].ts <= f[j].ts
    {
      if j == |fired| {
        if i < |fired| - 1 {
          assert fired[i].ts <= fired[|fired| - 1].ts;
        }
      } else {
        assert f[i] == fired[i] && f[j] == fired[j];
      }
    }
  }

  /**
   * The drain so far, from the heap `s0` and the delivered tasks `d0`: the
   * ledger holds, the first entry fired was the root of `s0`, and if no
   * recurring entry of `s0` has a negative period the firings are in order.
   */
  ghost predicate Drained<T>(s0: seq<Timer<T>>, d0: seq<T>, bag: multiset<Timer<T>>, d: seq<T>,
                             fired: seq<Timer<T>>, now: int)
  {
    && Accounted(Bag(s0), d0, bag, d, fired, now)
    && (|fired| > 0 ==> |s0| > 0 && fired[0] == Strip(s0[0]))
    && (PeriodsNonNegative(Bag(s0)) ==> InOrder(bag, fired))
  }

  /** One more round, firing the earliest entry `e` of `before`, keeps the drain's account. */
  lemma DrainedSnoc<T>(s0: seq<Timer<T>>, d0: seq<T>, before: multiset<Timer<T>>, after: multiset<Timer<T>>,
                       d: seq<T>, fired: seq<Timer<T>>, e: Timer<T>, now: int)
    requires Drained(s0, d0, before, d, fired, now)
    requires e in before && NoneBefore(before, e.ts) && Due(e, now)
    requires |fired| == 0 ==> |s0| > 0 && e == Strip(s0[0])
    requires e.exType == ExpireEvery ==> after + multiset{e} == before + multiset{e.(ts := now + e.dura)}
    requires e.exType != ExpireEvery ==> after + multiset{e} == before
    ensures Drained(s0, d0, after, d + [e.task], fired + [e], now)
  {
    AccountedSnoc(Bag(s0), d0, before, after, d, fired, e, now);
    if PeriodsNonNegative(Bag(s0)) {
      InOrderSnoc(before, after, fired, e, now);
    }
  }

  /** Firing one more entry delivers its task after the earlier ones. */
  lemma DeliveredSnoc<T>(d0: seq<T>, d: seq<T>, fired: seq<Timer<T>>, e: Timer<T>)
    requires d == d0 + FiredTasks(fired)
    ensures d + [e.task] == d0 + FiredTasks(fired + [e])
  {
    assert (fired + [e])[..|fired|] == fired;
    assert d + [e.task] == d0 + (FiredTasks(fired) + [e.task]);
  }

  /**
   * The drain's ledger: starting from the multiset `b0` and the delivered
   * tasks `d0`, firing `fired` (each of them due) leaves the multiset `bag`,
   * short of the fired entries and plus the rearmed ones, and the delivered
   * tasks `d`.
   */
  ghost predicate Accounted<T>(b0: multiset<Timer<T>>, d0: seq<T>, bag: multiset<Timer<T>>, d: seq<T>,
                               fired: seq<Timer<T>>, now: int)
  {
    && (forall f :: f in fired ==> Due(f, now))
    && bag + multiset(fired) == b0 + multiset(Rearmed(fired, now))
    && d == d0 + FiredTasks(fired)
  }

  /** Firing one more due entry, rearmed or removed, keeps the ledger. */
  lemma AccountedSnoc<T>(b0: multiset<Timer<T>>, d0: seq<T>, before: multiset<Timer<T>>, after: multiset<Timer<T>>,
                         d: seq<T>, fired: seq<Timer<T>>, e: Timer<T>, now: int)
    requires Accounted(b0, d0, before, d, fired, now) && Due(e, now)
    requires e.exType == ExpireEvery ==> after + multiset{e} == before + multiset{e.(ts := now + e.dura)}
    requires e.exType != ExpireEvery ==> after + multiset{e} == before
    ensures Accounted(b0, d0, after, d + [e.task], fired + [e], now)
  {
    FireBalance(b0, before, after, fired, e, now);
    DeliveredSnoc(d0, d, fired, e);
  }

  /**
   * The multiset bookkeeping of one firing: the heap loses the fired entry
   * and, if it recurs, regains it rearmed.
   */
  lemma FireBalance<T>(b0: multiset<Timer<T>>, before: multiset<Timer<T>>, after: multiset<Timer<T>>,
                       fired: seq<Timer<T>>, e: Timer<T>, now: int)
    requires before + multiset(fired) == b0 + multiset(Rearmed(fired, now))
    requires e.exType == ExpireEvery ==> after + multiset{e} == before + multiset{e.(ts := now + e.dura)}
    requires e.exType != ExpireEvery ==> after + multiset{e} == before
    ensures after + multiset(fired + [e]) == b0 + multiset(Rearmed(fired + [e], now))
  {
    RearmedSnoc(fired, e, now);
    assert multiset(fired + [e]) == multiset(fired) + multiset{e};
    if e.exType == ExpireEvery {
      var e' := e.(ts := now + e.dura);
      assert multiset(Rearmed(fired + [e], now)) == multiset(Rearmed(fired, now)) + multiset{e'};
      Exchange(after, before, b0, multiset(fired), multiset(Rearmed(fired, now)), e, e');
    } else {
      Drop(after, before, b0, multiset(fired), multiset(Rearmed(fired, now)), e);
    }
  }

  /** Multiset algebra for a firing that rearms: `e` goes out, `e'` comes in. */
  lemma Exchange<X>(after: multiset<X>, before: multiset<X>, b0: multiset<X>, f: multiset<X>, r: multiset<X>, e: X, e': X)
    requires before + f == b0 + r && after + multiset{e} == before + multiset{e'}
    ensures after + (f + multiset{e}) == b0 + (r + multiset{e'})
  {
    calc {
      after + (f + multiset{e});
      (after + multiset{e}) + f;
      (before + multiset{e'}) + f;
      (before + f) + multiset{e'};
    }
  }

  /** Multiset algebra for a firing that removes: `e` goes out. */
  lemma Drop<X>(after: multiset<X>, before: multiset<X>, b0: multiset<X>, f: multiset<X>, r: multiset<X>, e: X)
    requires before + f == b0 + r && after + multiset{e} == before
    ensures after + (f + multiset{e}) == b0 + r
  {
    calc {
      after + (f + multiset{e});
      (after + multiset{e}) + f;
    }
  }

  /** Firing one more entry puts it back, rearmed, exactly when it recurs. */
  lemma RearmedSnoc<T>(fired: seq<Timer<T>>, e: Timer<T>, now: int)
    ensures Rearmed(fired + [e], now) ==
      Rearmed(fired, now) + (if e.exType == ExpireEvery then [e.(ts := now + e.dura)] else [])
  {
    assert (fired + [e])[..|fired|] == fired;
  }
}
