/**
 * One slot of the hashed timing wheel (time_wheel/slot.go): a list of timers
 * kept in ascending deadline order by insertion sort, plus the counter `num`.
 *
 * The list is a sequence of `Element` objects. An element is immutable, and
 * its object identity plays the part of the `*list.Element` pointer that the
 * wheel keeps in order to cancel a timer later.
 */
module WheelSlot {
  import opened Wrappers

  /**
   * A wheel timer (time_wheel/timer.go). The record's `key` field is never
   * assigned by the wheel; the key lives in the wheel's cancellation map.
   */
  datatype Timer<T> = Timer(
    timeout: int,      // the requested interval, in nanoseconds
    timeoutTs: int,    // the absolute deadline, in Unix seconds
    task: T)

  /** A list element holding one timer. */
  class Element<T> {
    const value: Timer<T>

    constructor (t: Timer<T>)
      ensures value == t
    {
      value := t;
    }
  }

  /** Deadlines ascend along the list. */
  ghost predicate Sorted<T>(es: seq<Element<T>>)
  {
    forall i, j :: 0 <= i < j < |es| ==> es[i].value.timeoutTs <= es[j].value.timeoutTs
  }

  /** No element occurs twice. */
  ghost predicate Distinct<T>(es: seq<Element<T>>)
  {
    forall i, j :: 0 <= i < j < |es| ==> es[i] != es[j]
  }

  /**
   * The length of the longest prefix of `es` due no later than `ts`: where
   * `add` places a timer due at `ts`, and how many timers `tick` expires at
   * time `ts`.
   */
  function LeadingDue<T>(es: seq<Element<T>>, ts: int): (p: nat)
    ensures p <= |es|
    ensures forall i :: 0 <= i < p ==> es[i].value.timeoutTs <= ts
    ensures p < |es| ==> es[p].value.timeoutTs > ts
  {
    if es == [] || es[0].value.timeoutTs > ts then 0 else 1 + LeadingDue(es[1..], ts)
  }

  /** The list without the elements of `r`, order kept. */
  function Without<T>(es: seq<Element<T>>, r: set<Element<T>>): (s: seq<Element<T>>)
    ensures forall e {:trigger e in s} :: e in s ==> e in es && e !in r
    ensures forall e {:trigger e in s} :: e in es && e !in r ==> e in s
  {
    if es == [] then []
    else (if es[0] in r then [] else [es[0]]) + Without(es[1..], r)
  }

  /**
   * Inserting a timer after every element due no later than it and before
   * the first element due strictly later keeps a sorted list sorted.
   */
  lemma InsertKeepsSorted<T>(es: seq<Element<T>>, e: Element<T>, p: nat)
    requires Sorted(es) && p <= |es|
    requires forall i :: 0 <= i < p ==> es[i].value.timeoutTs <= e.value.timeoutTs
    requires p < |es| ==> es[p].value.timeoutTs > e.value.timeoutTs
    ensures Sorted(es[..p] + [e] + es[p..])
  {
    var s := es[..p] + [e] + es[p..];
    forall i, j | 0 <= i < j < |s|
      ensures s[i].value.timeoutTs <= s[j].value.timeoutTs
    {
      var x := if i < p then es[i] else if i == p then e else es[i - 1];
      var y := if j < p then es[j] else if j == p then e else es[j - 1];
      assert s[i] == x && s[j] == y;
    }
  }

  /** Inserting an element that is not yet in the list keeps its elements distinct. */
  lemma InsertKeepsDistinct<T>(es: seq<Element<T>>, e: Element<T>, p: nat)
    requires Distinct(es) && e !in es && p <= |es|
    ensures Distinct(es[..p] + [e] + es[p..])
  {
    var s := es[..p] + [e] + es[p..];
    forall i, j | 0 <= i < j < |s|
      ensures s[i] != s[j]
    {
      var x := if i < p then es[i] else if i == p then e else es[i - 1];
      var y := if j < p then es[j] else if j == p then e else es[j - 1];
      assert s[i] == x && s[j] == y;
    }
  }

  lemma {:induction false} WithoutSorted<T>(es: seq<Element<T>>, r: set<Element<T>>)
    requires Sorted(es)
    ensures Sorted(Without(es, r))
  {
    if es != [] {
      WithoutSorted(es[1..], r);
      var rest := Without(es[1..], r);
      forall k | 0 <= k < |rest|
        ensures es[0].value.timeoutTs <= rest[k].value.timeoutTs
      {
        assert rest[k] in rest;
        assert rest[k] in es[1..];
      }
    }
  }

  lemma {:induction false} WithoutDistinct<T>(es: seq<Element<T>>, r: set<Element<T>>)
    requires Distinct(es)
    ensures Distinct(Without(es, r))
  {
    if es != [] {
      assert Distinct(es[1..]) by {
        forall i, j | 0 <= i < j < |es| - 1 ensures es[1..][i] != es[1..][j] {
          assert es[1..][i] == es[i + 1] && es[1..][j] == es[j + 1];
        }
      }
      WithoutDistinct(es[1..], r);
      assert es[0] !in es[1..] by {
        forall k | 0 <= k < |es| - 1 ensures es[1..][k] != es[0] {
          assert es[1..][k] == es[k + 1];
        }
      }
      var rest := Without(es[1..], r);
      forall k | 0 <= k < |rest|
        ensures rest[k] != es[0]
      {
        assert rest[k] in rest;
      }
    }
  }

  /** Removing what is not there changes nothing. */
  lemma {:induction false} WithoutAbsent<T>(es: seq<Element<T>>, r: set<Element<T>>)
    requires forall e :: e in es ==> e !in r
    ensures Without(es, r) == es
  {
    if es != [] {
      WithoutAbsent(es[1..], r);
      assert [es[0]] + es[1..] == es;
    }
  }

  /** In a list without repeats, cutting out position `p` removes exactly the element there. */
  lemma {:induction false} RemoveAtIsWithout<T>(es: seq<Element<T>>, p: nat)
    requires Distinct(es) && p < |es|
    ensures es[..p] + es[p + 1..] == Without(es, {es[p]})
  {
    if p == 0 {
      assert es[..0] + es[1..] == es[1..];
      assert es[p] !in es[1..] by {
        forall k | 0 <= k < |es| - 1 ensures es[1..][k] != es[0] {
          assert es[1..][k] == es[k + 1];
        }
      }
      WithoutAbsent(es[1..], {es[0]});
    } else {
      var tl := es[1..];
      assert Distinct(tl) by {
        forall i, j | 0 <= i < j < |tl| ensures tl[i] != tl[j] {
          assert tl[i] == es[i + 1] && tl[j] == es[j + 1];
        }
      }
      assert tl[p - 1] == es[p];
      RemoveAtIsWithout(tl, p - 1);
      assert es[0] != es[p];
      assert es[..p] + es[p + 1..] == [es[0]] + (tl[..p - 1] + tl[p..]);
    }
  }

  /** Removing one element of a list without repeats shortens it by one. */
  lemma WithoutOneLength<T>(es: seq<Element<T>>, e: Element<T>)
    requires Distinct(es) && e in es
    ensures |Without(es, {e})| == |es| - 1
  {
    var p :| 0 <= p < |es| && es[p] == e;
    RemoveAtIsWithout(es, p);
  }

  /** Removing two sets one after the other is removing their union. */
  lemma {:induction false} WithoutWithout<T>(es: seq<Element<T>>, a: set<Element<T>>, b: set<Element<T>>)
    ensures Without(Without(es, a), b) == Without(es, a + b)
  {
    if es != [] {
      var h, t := es[0], es[1..];
      WithoutWithout(t, a, b);
      if h in a {
        assert Without(es, a) == Without(t, a);
      } else {
        var w := Without(t, a);
        assert Without(es, a) == [h] + w;
        assert ([h] + w)[0] == h && ([h] + w)[1..] == w;
        assert Without([h] + w, b) == (if h in b then [] else [h]) + Without(w, b);
      }
    }
  }

  /** Only membership among the list's own elements matters to `Without`. */
  lemma {:induction false} WithoutAgree<T>(es: seq<Element<T>>, a: set<Element<T>>, b: set<Element<T>>)
    requires forall e :: e in es ==> (e in a <==> e in b)
    ensures Without(es, a) == Without(es, b)
  {
    if es != [] {
      WithoutAgree(es[1..], a, b);
    }
  }

  class Slot<T> {
    /** The element count the source keeps beside the list. */
    var num: int
    /** The list itself (`slots *list.List` in the source). */
    var elems: seq<Element<T>>

    ghost predicate Valid()
      reads this
    {
      num == |elems| && Sorted(elems) && Distinct(elems)
    }

    /** `NewSlot`: an empty slot. */
    constructor ()
      ensures Valid() && elems == [] && num == 0
    {
      num := 0;
      elems := [];
    }

    /**
     * `add`: insertion sort. The scan stops at the first element due strictly
     * later than `t` and inserts before it, or appends when there is none.
     * The new element is returned as the handle for `del`.
     */
    method Add(t: Timer<T>) returns (elem: Element<T>)
      requires Valid()
      modifies this
      ensures Valid()
      ensures fresh(elem) && elem.value == t
      ensures var p := LeadingDue(old(elems), t.timeoutTs);
        elems == old(elems)[..p] + [elem] + old(elems)[p..]
      ensures num == old(num) + 1
    {
      elem := new Element(t);
      var i := 0;
      while i < |elems|
        invariant 0 <= i <= LeadingDue(elems, t.timeoutTs)
      {
        if elems[i].value.timeoutTs > t.timeoutTs {
          break;
        }
        i := i + 1;
      }
      InsertKeepsSorted(elems, elem, i);
      InsertKeepsDistinct(elems, elem, i);
      // InsertBefore the element at i, or PushBack when the scan ran off the end.
      elems := elems[..i] + [elem] + elems[i..];
      num := num + 1;
    }

    /**
     * `del`: a nil handle is ignored; otherwise the element is removed and
     * the counter decremented, both only when the element is in this list.
     */
    method Del(e: Element?<T>)
      requires Valid()
      modifies this
      ensures Valid()
      ensures e == null ==> elems == old(elems)
      ensures e != null ==> elems == Without(old(elems), {e})
      ensures num == old(num) - (if e != null && e in old(elems) then 1 else 0)
    {
      if e != null {
        if e in elems {
          var p :| 0 <= p < |elems| && elems[p] == e;
          RemoveAtIsWithout(elems, p);
          WithoutSorted(elems, {e});
          WithoutDistinct(elems, {e});
          elems := elems[..p] + elems[p + 1..];
          num := num - 1;
        } else {
          WithoutAbsent(elems, {e});
        }
      }
    }

    /** `front`: the head timer, which is due no later than any other, or None on an empty slot. */
    method Front() returns (t: Option<Timer<T>>)
      requires Valid()
      ensures t.None? <==> elems == []
      ensures t.Some? ==> t.value == elems[0].value
      ensures t.Some? ==> forall e {:trigger e in elems} :: e in elems ==> t.value.timeoutTs <= e.value.timeoutTs
    {
      if elems == [] {
        return None;
      }
      return Some(elems[0].value);
    }

    /** `pop`: remove and return the head timer; the slot must not be empty. */
    method Pop() returns (t: Timer<T>)
      requires Valid() && elems != []
      modifies this
      ensures Valid()
      ensures t == old(elems[0].value) && elems == old(elems[1..]) && num == old(num) - 1
      ensures forall e {:trigger e in elems} :: e in elems ==> t.timeoutTs <= e.value.timeoutTs
    {
      t := elems[0].value;
      assert Distinct(elems[1..]) by {
        forall i, j | 0 <= i < j < |elems| - 1 ensures elems[1..][i] != elems[1..][j] {
          assert elems[1..][i] == elems[i + 1] && elems[1..][j] == elems[j + 1];
        }
      }
      elems := elems[1..];
      num := num - 1;
    }
  }

  /**
   * `del` as the source writes it: `list.Remove` ignores an element that is
   * no longer in the list, but the counter is decremented regardless. For a
   * live element the counter stays equal to the list length.
   */
  function DelAsWritten<T>(es: seq<Element<T>>, num: int, e: Element?<T>): (r: (seq<Element<T>>, int))
    requires Distinct(es)
    ensures e == null ==> r == (es, num)
    ensures e != null ==> r.0 == Without(es, {e})
    ensures e != null && e in es && num == |es| ==> r.1 == |r.0|
  {
    if e == null then (es, num)
    else
      if e in es then
        WithoutOneLength(es, e);
        (Without(es, {e}), num - 1)
      else (Without(es, {e}), num - 1)
  }

  /**
   * The discrepancy: deleting an element that `tick` has already popped
   * leaves the list alone but still decrements the counter, so `num` falls
   * one below the list length.
   */
  lemma StaleDelSkewsCount<T>(es: seq<Element<T>>, e: Element<T>)
    requires Distinct(es) && e !in es
    ensures DelAsWritten(es, |es|, e).0 == es
    ensures DelAsWritten(es, |es|, e).1 == |es| - 1
  {
    WithoutAbsent(es, {e});
  }
}
