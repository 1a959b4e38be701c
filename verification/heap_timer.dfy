/**
 * The entry record of the heap engine (time_heap/timer.go). Deadlines and
 * durations are integer nanoseconds; the clock is a parameter.
 */
module HeapTimer {

  /** Go's `ExpireType`, a plain int with two named kinds. */
  type ExpireType = int

  /** Fire once, then leave the heap. */
  const ExpireOnlyOne: ExpireType := 1
  /** Fire, then rearm `dura` after the firing time. */
  const ExpireEvery: ExpireType := 2

  /** One heap entry: its position `id`, kind, period, deadline and task. */
  datatype Timer<T> = Timer(id: int, exType: ExpireType, dura: int, ts: int, task: T)

  /** Go's `now.After(t.ts)`: the entry is due strictly after its deadline. */
  predicate Due<T>(t: Timer<T>, now: int)
  {
    now > t.ts
  }

  /**
   * `newTimer`: an entry due `dura` after `now`, carrying the kind, period and
   * task it was given; its position is assigned only when it is pushed.
   */
  function NewTimer<T>(et: ExpireType, dura: int, task: T, now: int): (t: Timer<T>)
    ensures t.ts - now == dura
    ensures t.exType == et && t.dura == dura && t.task == task
    ensures t.id == 0
  {
    Timer(0, et, dura, now + dura, task)
  }
}
