/**
 * The hashed timing wheel (time_wheel/wheel.go). `slotNum` slots are visited
 * round-robin, one per tick; a timer is filed in the slot `timeout / tick`
 * ahead of the current one, and a tick expires the timers of the current
 * slot whose deadline has passed. A cancellation map files, under the
 * caller's key, where each timer was placed, so that `del` can remove every
 * timer added under that key.
 *
 * The wheel is driven by one goroutine that serialises ticks and the
 * add/delete events; the methods below are the three handlers it runs.
 * Times are passed in: `nowNanos` is Unix time in nanoseconds.
 */
module TimeWheel {
  import opened GoInts
  import opened WheelSlot

  /** `time.Second`, in nanoseconds. */
  const Second: int := 1_000_000_000

  /** A `timersManagerInfo`: the slot a timer was filed in and its list element. */
  datatype Location<T> = Location(slot: int, elem: Element<T>)

  /** The locations filed under `key`, or none. */
  function Locations<K, T>(tm: map<K, seq<Location<T>>>, key: K): seq<Location<T>>
  {
    if key in tm then tm[key] else []
  }

  /** The elements among `ls` that were filed in slot `i`. */
  ghost function ElemsIn<T>(ls: seq<Location<T>>, i: int): set<Element<T>>
  {
    set l | l in ls && l.slot == i :: l.elem
  }

  /** The elements that were added under `key`. */
  ghost function KeyedBy<K, T>(keyOf: map<Element<T>, K>, key: K): set<Element<T>>
  {
    set e | e in keyOf && keyOf[e] == key
  }

  /** The tasks of `es`, in list order. */
  function Tasks<T>(es: seq<Element<T>>): seq<T>
  {
    if es == [] then [] else Tasks(es[..|es| - 1]) + [es[|es| - 1].value.task]
  }

  /** Each slot's list without the elements of `r`. */
  ghost function WithoutEach<T>(c: seq<seq<Element<T>>>, r: set<Element<T>>): (c2: seq<seq<Element<T>>>)
    ensures |c2| == |c|
    ensures forall i {:trigger c2[i]} :: 0 <= i < |c| ==> c2[i] == Without(c[i], r)
  {
    if c == [] then [] else WithoutEach(c[..|c| - 1], r) + [Without(c[|c| - 1], r)]
  }

  /**
   * `Add`'s timer: the deadline is the Unix second of `now + timeout`,
   * rounded down as `time.Time.Unix` does.
   */
  function NewWheelTimer<T>(timeout: int, task: T, nowNanos: int): (t: Timer<T>)
    ensures t.timeout == timeout && t.task == task
    ensures t.timeoutTs * Second <= nowNanos + timeout < (t.timeoutTs + 1) * Second
  {
    Timer(timeout, (nowNanos + timeout) / Second, task)
  }

  /**
   * The slot `add` files a timer in: the current slot when the interval is
   * shorter than a tick, otherwise `timeout / tick` slots ahead, computed in
   * int32 and reduced with Go's `%`.
   */
  function PlaceSlot(curSlot: int, slotNum: int, timeout: int, tick: int): (p: int)
    requires slotNum > 0 && tick > 0
    ensures timeout < tick ==> p == curSlot
    ensures timeout >= tick ==> -slotNum < p < slotNum
  {
    if timeout < tick then curSlot
    else GoRem(ToInt32(ToInt32(timeout / tick) + curSlot), slotNum)
  }

  /**
   * While `timeout / tick` slots ahead fit in an int32, the slot is that many
   * slots ahead of the current one around the wheel, and so a valid index.
   */
  lemma PlaceSlotAhead(curSlot: int, slotNum: int, timeout: int, tick: int)
    requires 0 <= curSlot < slotNum <= MaxInt32 && tick > 0
    requires timeout >= tick ==> timeout / tick <= MaxInt32 - curSlot
    ensures 0 <= PlaceSlot(curSlot, slotNum, timeout, tick) < slotNum
    ensures timeout < tick ==> PlaceSlot(curSlot, slotNum, timeout, tick) == curSlot
    ensures timeout >= tick ==>
      PlaceSlot(curSlot, slotNum, timeout, tick) == (curSlot + timeout / tick) % slotNum
  {
    if timeout >= tick {
      var q := timeout / tick;
      assert ToInt32(q) == q;
      assert ToInt32(q + curSlot) == q + curSlot;
    }
  }

  /** Every location filed under a key points at a slot and holds an element added under that key. */
  ghost predicate LocationsKeyed<K, T>(tm: map<K, seq<Location<T>>>, keyOf: map<Element<T>, K>, slotNum: int)
  {
    forall k, l {:trigger l in tm[k]} :: k in tm && l in tm[k] ==> 0 <= l.slot < slotNum && l.elem in keyOf && keyOf[l.elem] == k
  }

  /** Every pending element is filed, under the key it was added with, at the slot holding it. */
  ghost predicate ElemsFiled<K, T>(c: seq<seq<Element<T>>>, tm: map<K, seq<Location<T>>>, keyOf: map<Element<T>, K>)
  {
    forall i, e {:trigger e in c[i]} :: 0 <= i < |c| && e in c[i] ==>
      e in keyOf && keyOf[e] in tm && Location(i, e) in tm[keyOf[e]]
  }

  /** Removing elements from slots keeps the rest filed. */
  lemma ElemsFiledShrink<K, T>(c: seq<seq<Element<T>>>, c2: seq<seq<Element<T>>>,
                               tm: map<K, seq<Location<T>>>, keyOf: map<Element<T>, K>)
    requires ElemsFiled(c, tm, keyOf) && |c2| == |c|
    requires forall i, e :: 0 <= i < |c2| && e in c2[i] ==> e in c[i]
    ensures ElemsFiled(c2, tm, keyOf)
  {
  }

  /**
   * Filing a new element under `key` at slot `p`, and recording its location
   * in the map, keeps both bookkeeping invariants.
   */
  lemma FiledAfterAdd<K, T>(c: seq<seq<Element<T>>>, tm: map<K, seq<Location<T>>>, keyOf: map<Element<T>, K>,
                            key: K, p: int, q: int, elem: Element<T>)
    requires ElemsFiled(c, tm, keyOf) && LocationsKeyed(tm, keyOf, |c|)
    requires 0 <= p < |c| && 0 <= q <= |c[p]| && elem !in keyOf
    ensures var tm2 := tm[key := Locations(tm, key) + [Location(p, elem)]];
      var keyOf2 := keyOf[elem := key];
      && ElemsFiled(c[p := c[p][..q] + [elem] + c[p][q..]], tm2, keyOf2)
      && LocationsKeyed(tm2, keyOf2, |c|)
  {
    var tm2 := tm[key := Locations(tm, key) + [Location(p, elem)]];
    var keyOf2 := keyOf[elem := key];
    var c2 := c[p := c[p][..q] + [elem] + c[p][q..]];
    forall i, e {:trigger e in c2[i]} | 0 <= i < |c2| && e in c2[i]
      ensures e in keyOf2 && keyOf2[e] in tm2 && Location(i, e) in tm2[keyOf2[e]]
    {
      if e != elem {
        assert e in c[i];
        if keyOf[e] == key {
          assert Location(i, e) in Locations(tm, key);
        }
      }
    }
  }

  /** Dropping a key and every element added under it keeps both bookkeeping invariants. */
  lemma FiledAfterDel<K, T>(c: seq<seq<Element<T>>>, tm: map<K, seq<Location<T>>>, keyOf: map<Element<T>, K>, key: K)
    requires ElemsFiled(c, tm, keyOf) && LocationsKeyed(tm, keyOf, |c|)
    ensures ElemsFiled(WithoutEach(c, KeyedBy(keyOf, key)), tm - {key}, keyOf) && LocationsKeyed(tm - {key}, keyOf, |c|)
  {
    var r := KeyedBy(keyOf, key);
    var c2 := WithoutEach(c, r);
    forall i, e {:trigger e in c2[i]} | 0 <= i < |c2| && e in c2[i]
      ensures e in keyOf && keyOf[e] in tm - {key} && Location(i, e) in (tm - {key})[keyOf[e]]
    {
      assert c2[i] == Without(c[i], r);
      assert e in c[i] && e !in r;
      var k := keyOf[e];
      assert k in tm && Location(i, e) in tm[k];
      assert k != key;
      assert k in tm - {key} && (tm - {key})[k] == tm[k];
    }
  }

  /** Removing the elements of one more location widens the removed set by that element, in its own slot only. */
  lemma WithoutLocationsStep<T>(es: seq<Element<T>>, locs: seq<Location<T>>, j: nat, i: int)
    requires j < |locs|
    ensures locs[j].slot == i ==>
      Without(es, ElemsIn(locs[..j + 1], i)) == Without(Without(es, ElemsIn(locs[..j], i)), {locs[j].elem})
    ensures locs[j].slot != i ==>
      Without(es, ElemsIn(locs[..j + 1], i)) == Without(es, ElemsIn(locs[..j], i))
  {
    assert locs[..j + 1] == locs[..j] + [locs[j]];
    if locs[j].slot == i {
      assert ElemsIn(locs[..j + 1], i) == ElemsIn(locs[..j], i) + {locs[j].elem};
      WithoutWithout(es, ElemsIn(locs[..j], i), {locs[j].elem});
    } else {
      assert ElemsIn(locs[..j + 1], i) == ElemsIn(locs[..j], i);
    }
  }

  /**
   * Within a slot, the elements filed under `key` in the cancellation map
   * are exactly the pending elements added under `key`.
   */
  lemma FiledLocationsAreKeyed<K, T>(c: seq<seq<Element<T>>>, tm: map<K, seq<Location<T>>>,
                                     keyOf: map<Element<T>, K>, key: K, i: int)
    requires ElemsFiled(c, tm, keyOf) && LocationsKeyed(tm, keyOf, |c|)
    requires key in tm && 0 <= i < |c|
    ensures Without(c[i], ElemsIn(tm[key], i)) == Without(c[i], KeyedBy(keyOf, key))
  {
    forall e | e in c[i]
      ensures e in ElemsIn(tm[key], i) <==> e in KeyedBy(keyOf, key)
    {
      if e in KeyedBy(keyOf, key) {
        assert Location(i, e) in tm[key];
      }
    }
    WithoutAgree(c[i], ElemsIn(tm[key], i), KeyedBy(keyOf, key));
  }

  class Wheel<K(==), T> {
    var curSlot: int
    const slotNum: int
    /** The tick interval, in nanoseconds. */
    const tickDuration: int
    const workerPoolNum: int
    const slots: array<Slot<T>>
    /** The cancellation map: every location filed under each key, in order of addition. */
    var timersManager: map<K, seq<Location<T>>>
    /** The key each element was added under. */
    ghost var keyOf: map<Element<T>, K>
    /** The tasks handed to the worker pool so far, in order. */
    ghost var delivered: seq<T>
    /** The timers of each slot, in slot order: a mirror of the slots' lists. */
    ghost var contents: seq<seq<Element<T>>>

    ghost function SlotSet(): set<Slot<T>>
      reads slots
    {
      set i | 0 <= i < slots.Length :: slots[i]
    }

    /**
     * The wheel's invariant: the slots are distinct and valid, every filed
     * location points at a slot and was added under its key, and every
     * pending timer is filed, under its key, at the slot that holds it.
     */
    ghost predicate Valid()
      reads this, slots, SlotSet()
    {
      && slots.Length == slotNum && 0 < slotNum <= MaxInt32
      && tickDuration >= Second && workerPoolNum > 0
      && 0 <= curSlot < slotNum
      && (forall i, j :: 0 <= i < j < slots.Length ==> slots[i] != slots[j])
      && (forall i :: 0 <= i < slots.Length ==> slots[i].Valid())
      && |contents| == slotNum
      && (forall i :: 0 <= i < slots.Length ==> slots[i].elems == contents[i])
      && LocationsKeyed(timersManager, keyOf, slotNum)
      && ElemsFiled(contents, timersManager, keyOf)
    }

    /** The wheel `NewAndRun` builds, before its goroutines start. */
    constructor (slotNum: int, tick: int, workerPoolNum: int)
      requires 0 < slotNum <= MaxInt32 && tick >= Second && 0 < workerPoolNum < 0x4000_0000
      ensures Valid() && fresh(slots) && fresh(SlotSet())
      ensures this.slotNum == slotNum && tickDuration == tick && this.workerPoolNum == workerPoolNum
      ensures curSlot == 0 && timersManager == map[] && keyOf == map[] && delivered == []
      ensures forall i :: 0 <= i < slotNum ==> slots[i].elems == []
    {
      var ss: seq<Slot<T>> := [];
      while |ss| < slotNum
        invariant |ss| <= slotNum
        invariant forall i :: 0 <= i < |ss| ==> fresh(ss[i]) && ss[i].Valid() && ss[i].elems == []
        invariant forall i, j :: 0 <= i < j < |ss| ==> ss[i] != ss[j]
      {
        var s := new Slot();
        ss := ss + [s];
      }
      this.slotNum := slotNum;
      tickDuration := tick;
      this.workerPoolNum := workerPoolNum;
      slots := new Slot<T>[slotNum](i requires 0 <= i < slotNum => ss[i]);
      curSlot := 0;
      contents := seq(slotNum, i => []);
      timersManager := map[];
      keyOf := map[];
      delivered := [];
    }

    /**
     * `add`: file the timer in its slot in deadline order, and append its
     * location to the key's entry of the cancellation map. The slot index
     * must be in range (Go panics otherwise).
     */
    method AddTimer(key: K, t: Timer<T>) returns (ghost elem: Element<T>)
      requires Valid()
      requires 0 <= PlaceSlot(curSlot, slotNum, t.timeout, tickDuration) < slotNum
      modifies this, SlotSet()
      ensures Valid()
      ensures curSlot == old(curSlot) && delivered == old(delivered)
      ensures fresh(elem) && elem.value == t && keyOf == old(keyOf)[elem := key]
      ensures var p := PlaceSlot(old(curSlot), slotNum, t.timeout, tickDuration);
        var q := LeadingDue(old(slots[p].elems), t.timeoutTs);
        && slots[p].elems == old(slots[p].elems)[..q] + [elem] + old(slots[p].elems)[q..]
        && timersManager == old(timersManager)[key := Locations(old(timersManager), key) + [Location(p, elem)]]
      ensures forall i :: 0 <= i < slotNum && i != PlaceSlot(old(curSlot), slotNum, t.timeout, tickDuration) ==>
        slots[i].elems == old(slots[i].elems)
    {
      var insertSlot := PlaceSlot(curSlot, slotNum, t.timeout, tickDuration);
      ghost var c, tm, ko := contents, timersManager, keyOf;
      var e := slots[insertSlot].Add(t);
      elem := e;
      ghost var q := LeadingDue(c[insertSlot], t.timeoutTs);
      ghost var c2 := c[insertSlot := c[insertSlot][..q] + [e] + c[insertSlot][q..]];
      FiledAfterAdd(c, tm, ko, key, insertSlot, q, e);
      contents := c2;
      keyOf := keyOf[e := key];
      var info := Location(insertSlot, e);
      if key in timersManager {
        timersManager := timersManager[key := timersManager[key] + [info]];
      } else {
        timersManager := timersManager[key := [info]];
        assert [info] == Locations(tm, key) + [info];
      }
    }

    /**
     * `del`: remove from their slots every timer filed under `key`, then
     * forget the key. Timers already expired are no longer in any slot and
     * are skipped. Nothing happens for an unknown key.
     */
    method DelKey(key: K)
      requires Valid()
      modifies this, SlotSet()
      ensures Valid()
      ensures curSlot == old(curSlot) && delivered == old(delivered) && keyOf == old(keyOf)
      ensures timersManager == old(timersManager) - {key}
      ensures forall i :: 0 <= i < slotNum ==>
        slots[i].elems == Without(old(slots[i].elems), KeyedBy(keyOf, key))
      ensures forall i, e :: 0 <= i < slotNum && e in slots[i].elems ==> keyOf[e] != key
    {
      if key in timersManager {
        var locs := timersManager[key];
        ghost var c, ko := contents, keyOf;
        FiledAfterDel(c, timersManager, ko, key);
        DelLocations(locs);
        forall i | 0 <= i < slotNum
          ensures slots[i].elems == Without(c[i], KeyedBy(ko, key))
        {
          FiledLocationsAreKeyed(c, timersManager, ko, key, i);
        }
        contents := WithoutEach(c, KeyedBy(ko, key));
        timersManager := timersManager - {key};
      } else {
        forall i | 0 <= i < slotNum
          ensures slots[i].elems == Without(contents[i], KeyedBy(keyOf, key))
        {
          WithoutAbsent(contents[i], KeyedBy(keyOf, key));
        }
      }
    }

    /** The loop of `del`: remove each listed element from the slot it was filed in. */
    method DelLocations(locs: seq<Location<T>>)
      requires slots.Length == slotNum
      requires forall i, j :: 0 <= i < j < slots.Length ==> slots[i] != slots[j]
      requires forall i :: 0 <= i < slotNum ==> slots[i].Valid()
      requires forall l :: l in locs ==> 0 <= l.slot < slotNum
      modifies SlotSet()
      ensures forall i :: 0 <= i < slotNum ==>
        slots[i].Valid() && slots[i].elems == Without(old(slots[i].elems), ElemsIn(locs, i))
    {
      forall i | 0 <= i < slotNum
        ensures slots[i].elems == Without(slots[i].elems, ElemsIn(locs[..0], i))
      {
        WithoutAbsent(slots[i].elems, ElemsIn(locs[..0], i));
      }
      var j := 0;
      while j < |locs|
        invariant 0 <= j <= |locs|
        invariant forall i :: 0 <= i < slotNum ==>
          slots[i].Valid() && slots[i].elems == Without(old(slots[i].elems), ElemsIn(locs[..j], i))
      {
        var l := locs[j];
        slots[l.slot].Del(l.elem);
        forall i | 0 <= i < slotNum
          ensures slots[i].elems == Without(old(slots[i].elems), ElemsIn(locs[..j + 1], i))
        {
          WithoutLocationsStep(old(slots[i].elems), locs, j, i);
        }
        j := j + 1;
      }
      assert locs[..j] == locs;
    }

    /**
     * `tick`: hand to the workers, in deadline order, every timer of the
     * current slot due by the current Unix second, stopping at the first
     * one still pending; then advance to the next slot, wrapping around.
     */
    method Tick(nowNanos: int)
      requires Valid()
      modifies this, SlotSet()
      ensures Valid()
      ensures timersManager == old(timersManager) && keyOf == old(keyOf)
      ensures curSlot == (old(curSlot) + 1) % slotNum
      ensures var c := old(curSlot);
        var n := LeadingDue(old(slots[c].elems), nowNanos / Second);
        && slots[c].elems == old(slots[c].elems)[n..]
        && delivered == old(delivered) + Tasks(old(slots[c].elems)[..n])
      ensures forall i :: 0 <= i < slotNum && i != old(curSlot) ==> slots[i].elems == old(slots[i].elems)
    {
      var timeNow := nowNanos / Second;
      var cur := slots[curSlot];
      ghost var initial := cur.elems;
      ghost var fired := ExpireDue(cur, timeNow);
      delivered := delivered + fired;
      ghost var c2 := contents[curSlot := cur.elems];
      forall i, e | 0 <= i < |c2| && e in c2[i]
        ensures e in contents[i]
      {
        if i == curSlot {
          assert e in initial;
        }
      }
      ElemsFiledShrink(contents, c2, timersManager, keyOf);
      contents := c2;
      curSlot := curSlot + 1;
      curSlot := curSlot % slotNum;
    }
  }

  /**
   * The loop of `tick`: while the head timer of the slot is due at
   * `timeNow`, hand its task over and pop it. Returns the tasks handed
   * over, in order.
   */
  method ExpireDue<T>(cur: Slot<T>, timeNow: int) returns (ghost fired: seq<T>)
    requires cur.Valid()
    modifies cur
    ensures cur.Valid()
    ensures var n := LeadingDue(old(cur.elems), timeNow);
      && cur.elems == old(cur.elems)[n..]
      && fired == Tasks(old(cur.elems)[..n])
  {
    ghost var initial := cur.elems;
    ghost var n := 0;
    fired := [];
    var tmp := cur.Front();
    while tmp.Some?
      invariant cur.Valid()
      invariant 0 <= n <= LeadingDue(initial, timeNow) && cur.elems == initial[n..]
      invariant tmp.None? <==> cur.elems == []
      invariant tmp.Some? ==> tmp.value == cur.elems[0].value
      invariant fired == Tasks(initial[..n])
      decreases |cur.elems|
    {
      if tmp.value.timeoutTs <= timeNow {
        assert initial[..n + 1][..n] == initial[..n];
        fired := fired + [tmp.value.task];
        var _ := cur.Pop();
        tmp := cur.Front();
        n := n + 1;
        continue;
      }
      break;
    }
    assert n == LeadingDue(initial, timeNow);
  }

  /**
   * `NewAndRun`: no wheel for a non-positive slot count or pool size or a
   * tick shorter than a second; otherwise an empty wheel at slot 0. Past the
   * argument checks, a pool of 2^30 or more workers makes the int32 channel
   * capacity `workerPoolNum*2` wrap negative, and `make` panics.
   */
  method NewAndRun<K(==), T>(slotNum: Int32, tick: int, workerPoolNum: Int32) returns (w: Wheel?<K, T>)
    requires slotNum <= 0 || tick < Second || workerPoolNum < 0x4000_0000
    ensures w == null <==> slotNum <= 0 || tick < Second || workerPoolNum <= 0
    ensures w != null ==>
      && fresh(w) && w.Valid() && w.curSlot == 0 && w.slotNum == slotNum
      && w.tickDuration == tick && w.timersManager == map[] && w.delivered == []
      && (forall i :: 0 <= i < slotNum ==> w.slots[i].elems == [])
  {
    if slotNum <= 0 || tick < Second || workerPoolNum <= 0 {
      return null;
    }
    w := new Wheel(slotNum, tick, workerPoolNum);
  }
}
