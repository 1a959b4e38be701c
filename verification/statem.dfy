/**
 * The state machine of statem/statem.go: a validated table of states, a
 * current state with a deadline after which `Tick` moves to the state's
 * automatic successor, and a registry of keyed timeouts that belongs to the
 * current state and is discarded on every transition.
 *
 * The wall clock, read where the source computes a new deadline, is the
 * explicit parameter `now` (Unix seconds); `Tick` also takes the caller's
 * `timeNow`, against which deadlines are compared. Entry, exit and
 * keyed-timeout callbacks are opaque; their invocations are recorded in the
 * ghost `trace`.
 */
module Statem {
  import opened Wrappers
  import opened GoInts

  /** Go's uint32, the type of state identifiers; 0 stands for "no state". */
  type StateId = x: int | 0 <= x < 0x1_0000_0000

  /** The identity of an opaque callback supplied by the caller. */
  type CallbackId = nat

  /** A row of the state table. Callbacks are reduced to whether they are present. */
  datatype State = State(
    current: StateId,
    timeout: Int32,           // seconds; 0 means the state never times out
    hasExitCallback: bool,
    hasEntryCallback: bool,
    next: StateId)            // automatic successor; 0 means none

  /** The view of the active state handed to callbacks. */
  datatype CurState<D> = CurState(state: State, isTimeoutExit: bool, customData: Option<D>)

  /** A keyed timeout; `timeoutTs` is the absolute deadline. */
  datatype KVTimeout<K, V> = KVTimeout(key: K, value: V, timeout: Int32, callback: CallbackId, timeoutTs: int)

  datatype Error =
    | ReduplicatedState(id: StateId)
    | NotFoundState(id: StateId)
    | NotFoundInitState(id: StateId)
    | AlreadyHasKey

  /** A callback invocation: entry into a state, exit from a state, or a keyed timeout firing. */
  datatype Event<K, V> =
    | Entered(id: StateId)
    | Exited(id: StateId)
    | KeyTimedOut(callback: CallbackId, key: K, value: V, timeout: Int32)

  /** `addTimeoutSecondFromNow`: the deadline `sec` seconds after `now`. */
  function AddTimeoutSecondFromNow(now: int, sec: Int32): (deadline: int)
    ensures deadline - now == sec
  {
    now + sec
  }

  function EntryEvents<K, V>(s: State): seq<Event<K, V>>
  {
    if s.hasEntryCallback then [Entered(s.current)] else []
  }

  function ExitEvents<K, V>(s: State): seq<Event<K, V>>
  {
    if s.hasExitCallback then [Exited(s.current)] else []
  }

  // ---------------------------------------------------------------------------
  // Validation of the state table

  ghost function Ids(states: seq<State>): set<StateId>
  {
    set s | s in states :: s.current
  }

  ghost predicate UniqueIds(states: seq<State>)
  {
    forall i, j :: 0 <= i < j < |states| ==> states[i].current != states[j].current
  }

  ghost predicate NextsResolve(states: seq<State>)
  {
    forall s :: s in states && s.next != 0 ==> s.next in Ids(states)
  }

  /** Every row is filed under its own id and every non-zero successor exists. */
  ghost predicate TableClosed(table: map<StateId, State>)
  {
    forall id :: id in table ==>
      table[id].current == id && (table[id].next != 0 ==> table[id].next in table)
  }

  /** The map the first validation loop builds, in slice order, failing at the first repeated id. */
  function Collect(states: seq<State>): (r: Result<map<StateId, State>, Error>)
    ensures r.Ok? ==> forall id :: id in r.value ==> r.value[id].current == id
    ensures r.Err? ==> r.error.ReduplicatedState?
  {
    if states == [] then Ok(map[])
    else
      var last := states[|states| - 1];
      match Collect(states[..|states| - 1])
      case Err(e) => Err(e)
      case Ok(m) =>
        if last.current in m then Err(ReduplicatedState(last.current)) else Ok(m[last.current := last])
  }

  /** The successor of the first state whose non-zero `next` names no row of `table`. */
  function FindDangling(states: seq<State>, table: map<StateId, State>): (r: Option<StateId>)
    ensures r.Some? ==> r.value != 0 && r.value !in table
  {
    if states == [] then None
    else if states[0].next != 0 && states[0].next !in table then Some(states[0].next)
    else FindDangling(states[1..], table)
  }

  /** What `InitStateMachine` decides about `(initState, states)`: the table, or the error it reports. */
  function Validate(initState: StateId, states: seq<State>): (r: Result<map<StateId, State>, Error>)
    ensures r.Ok? ==> initState in r.value && forall id :: id in r.value ==> r.value[id].current == id
    ensures r.Err? ==> !r.error.AlreadyHasKey?
  {
    match Collect(states)
    case Err(e) => Err(e)
    case Ok(table) =>
      match FindDangling(states, table)
      case Some(n) => Err(NotFoundState(n))
      case None => if initState in table then Ok(table) else Err(NotFoundInitState(initState))
  }

  /** Appending a row keeps the ids unique exactly when its id is new. */
  lemma UniqueIdsSnoc(init: seq<State>, last: State)
    ensures UniqueIds(init + [last]) <==> UniqueIds(init) && last.current !in Ids(init)
  {
    var states := init + [last];
    if UniqueIds(states) {
      forall i, j | 0 <= i < j < |init| ensures init[i].current != init[j].current {
        assert states[i] == init[i] && states[j] == init[j];
      }
      forall i | 0 <= i < |init| ensures init[i].current != last.current {
        assert states[i] == init[i] && states[|init|] == last;
      }
    }
  }

  /** The first loop succeeds exactly when no id repeats. */
  lemma {:induction false} CollectOkIffUnique(states: seq<State>)
    ensures Collect(states).Ok? <==> UniqueIds(states)
  {
    if states != [] {
      var n := |states| - 1;
      var init, last := states[..n], states[n];
      assert states == init + [last];
      CollectOkIffUnique(init);
      CollectTable(init);
      UniqueIdsSnoc(init, last);
    }
  }

  /** On success, the map files every row under its own id and holds nothing else. */
  lemma {:induction false} CollectTable(states: seq<State>)
    ensures Collect(states).Ok? ==>
      && Collect(states).value.Keys == Ids(states)
      && forall s :: s in states ==> Collect(states).value[s.current] == s
  {
    if states != [] && Collect(states).Ok? {
      var n := |states| - 1;
      var init, last := states[..n], states[n];
      assert states == init + [last];
      CollectTable(init);
      var m := Collect(init).value;
      assert Ids(states) == Ids(init) + {last.current};
      forall s | s in states
        ensures m[last.current := last][s.current] == s
      {
        if s != last {
          var i :| 0 <= i < |states| && states[i] == s;
          if i < n { assert s in init; }
        }
      }
    }
  }

  /** On failure, the error names an id that two rows share. */
  lemma {:induction false} CollectDuplicate(states: seq<State>)
    ensures Collect(states).Err? ==>
      && Collect(states).error.ReduplicatedState?
      && exists i, j :: 0 <= i < j < |states| && states[i].current == states[j].current == Collect(states).error.id
  {
    if states != [] && Collect(states).Err? {
      var n := |states| - 1;
      var init, last := states[..n], states[n];
      assert states == init + [last];
      match Collect(init)
      case Err(e) =>
        CollectDuplicate(init);
        var i, j :| 0 <= i < j < |init| && init[i].current == init[j].current == e.id;
        assert states[i] == init[i] && states[j] == init[j];
      case Ok(m) =>
        CollectTable(init);
        var i :| 0 <= i < |init| && init[i].current == last.current;
        assert states[i] == init[i];
    }
  }

  /**
   * The first validation loop: it succeeds exactly when no id repeats, and
   * then files every row under its own id; otherwise it reports a repeated id.
   */
  lemma CollectSpec(states: seq<State>)
    ensures Collect(states).Ok? <==> UniqueIds(states)
    ensures Collect(states).Ok? ==>
      && Collect(states).value.Keys == Ids(states)
      && forall s :: s in states ==> Collect(states).value[s.current] == s
    ensures Collect(states).Err? ==>
      && Collect(states).error.ReduplicatedState?
      && exists i, j :: 0 <= i < j < |states| && states[i].current == states[j].current == Collect(states).error.id
  {
    CollectOkIffUnique(states);
    CollectTable(states);
    CollectDuplicate(states);
  }

  /** Once a prefix of the slice has a repeated id, the whole slice fails with the same error. */
  lemma {:induction false} CollectErrSticky(states: seq<State>, k: nat)
    requires k <= |states|
    requires Collect(states[..k]).Err?
    ensures Collect(states) == Collect(states[..k])
    decreases |states| - k
  {
    if k < |states| {
      assert states[..k + 1][..k] == states[..k];
      CollectErrSticky(states, k + 1);
    } else {
      assert states[..k] == states;
    }
  }

  lemma {:induction false} FindDanglingSpec(states: seq<State>, table: map<StateId, State>)
    ensures FindDangling(states, table).None? <==>
      forall s :: s in states && s.next != 0 ==> s.next in table
    ensures FindDangling(states, table).Some? ==>
      var n := FindDangling(states, table).value;
      n != 0 && n !in table && exists s :: s in states && s.next == n
  {
    if states != [] {
      FindDanglingSpec(states[1..], table);
      assert forall s :: s in states ==> s == states[0] || s in states[1..];
    }
  }

  /**
   * Initialisation succeeds exactly on a table with unique ids, resolvable
   * successors and a present initial state; the table it installs holds every
   * row under its id and is closed under `next`; each error names its cause.
   */
  lemma ValidateSpec(initState: StateId, states: seq<State>)
    ensures Validate(initState, states).Ok? <==>
      UniqueIds(states) && NextsResolve(states) && initState in Ids(states)
    ensures Validate(initState, states).Ok? ==>
      var table := Validate(initState, states).value;
      && table.Keys == Ids(states)
      && (forall s :: s in states ==> table[s.current] == s)
      && TableClosed(table)
    ensures Validate(initState, states).Err? ==>
      match Validate(initState, states).error
      case ReduplicatedState(d) =>
        exists i, j :: 0 <= i < j < |states| && states[i].current == states[j].current == d
      case NotFoundState(n) =>
        n != 0 && n !in Ids(states) && exists s :: s in states && s.next == n
      case NotFoundInitState(x) =>
        x == initState && initState !in Ids(states)
      case AlreadyHasKey => false
    ensures !UniqueIds(states) ==> Validate(initState, states).Err? && Validate(initState, states).error.ReduplicatedState?
    ensures UniqueIds(states) && !NextsResolve(states) ==>
      Validate(initState, states).Err? && Validate(initState, states).error.NotFoundState?
  {
    CollectSpec(states);
    if Collect(states).Ok? {
      var table := Collect(states).value;
      FindDanglingSpec(states, table);
      if FindDangling(states, table).None? && initState in table {
        forall id | id in table
          ensures table[id].current == id && (table[id].next != 0 ==> table[id].next in table)
        {
          var s :| s in states && s.current == id;
        }
      }
    }
  }

  /**
   * The validation loops of `InitStateMachine`: collect the rows by id,
   * rejecting a repeated id, then reject a non-zero successor that names no
   * row, then an initial state that names no row.
   */
  method CheckTable(initState: StateId, table: seq<State>) returns (r: Result<map<StateId, State>, Error>)
    ensures r == Validate(initState, table)
  {
    var stateList: map<StateId, State> := map[];
    var i := 0;
    while i < |table|
      invariant 0 <= i <= |table|
      invariant Collect(table[..i]) == Ok(stateList)
    {
      var v := table[i];
      assert table[..i + 1][..i] == table[..i];
      if v.current in stateList {
        CollectErrSticky(table, i + 1);
        return Err(ReduplicatedState(v.current));
      }
      stateList := stateList[v.current := v];
      i := i + 1;
    }
    assert table[..|table|] == table;

    i := 0;
    while i < |table|
      invariant 0 <= i <= |table|
      invariant FindDangling(table, stateList) == FindDangling(table[i..], stateList)
    {
      var v := table[i];
      assert table[i..][1..] == table[i + 1..];
      if v.next !in stateList && v.next != 0 {
        return Err(NotFoundState(v.next));
      }
      i := i + 1;
    }

    if initState !in stateList {
      return Err(NotFoundInitState(initState));
    }
    return Ok(stateList);
  }

  // ---------------------------------------------------------------------------
  // Keyed-timeout registry helpers

  ghost predicate Distinct<X>(s: seq<X>)
  {
    forall i, j :: 0 <= i < j < |s| ==> s[i] != s[j]
  }

  /** Appending a new value keeps a sequence free of repeats. */
  lemma DistinctSnoc<X>(s: seq<X>, x: X)
    requires Distinct(s) && x !in s
    ensures Distinct(s + [x])
  {
    var t := s + [x];
    forall i, j | 0 <= i < j < |t| ensures t[i] != t[j] {
      if j == |s| {
        assert t[i] == s[i];
      } else {
        assert t[i] == s[i] && t[j] == s[j];
      }
    }
  }

  /** The keys whose deadline has been reached at `now`. */
  ghost function DueKeys<K, V>(reg: map<K, KVTimeout<K, V>>, now: int): set<K>
  {
    set k | k in reg && now >= reg[k].timeoutTs
  }

  /** The entries still waiting at `now`. */
  ghost function Pending<K, V>(reg: map<K, KVTimeout<K, V>>, now: int): map<K, KVTimeout<K, V>>
  {
    map k | k in reg && now < reg[k].timeoutTs :: reg[k]
  }

  /** The callback invocations for `keys`, in that order. */
  ghost function KeyEvents<K, V>(keys: seq<K>, reg: map<K, KVTimeout<K, V>>): seq<Event<K, V>>
    requires forall k :: k in keys ==> k in reg
  {
    if keys == [] then []
    else
      var k := keys[|keys| - 1];
      KeyEvents(keys[..|keys| - 1], reg) + [KeyTimedOut(reg[k].callback, k, reg[k].value, reg[k].timeout)]
  }

  /** The state's own timeout has fired: its deadline has passed and it has a timeout and a successor. */
  predicate StateTimedOut(s: State, deadline: int, now: int)
  {
    now >= deadline && s.next != 0 && s.timeout != 0
  }

  // ---------------------------------------------------------------------------
  // The machine

  class Machine<K(==), V, D> {
    /** The active state; None until initialisation succeeds (a nil pointer in the source). */
    var curState: Option<CurState<D>>
    /** The deadline of the active state's own timeout. */
    var curStateTimeout: int
    /** The keyed timeouts of the active state. */
    var kvTimeouts: map<K, KVTimeout<K, V>>
    /** The validated state table. */
    var states: map<StateId, State>
    /** Every callback invocation so far. */
    ghost var trace: seq<Event<K, V>>

    ghost predicate Valid()
      reads this
    {
      && TableClosed(states)
      && (curState.Some? ==>
            && curState.value.state.current in states
            && states[curState.value.state.current] == curState.value.state)
      && (forall k :: k in kvTimeouts ==> kvTimeouts[k].key == k)
    }

    /** `NewStateMachine`: an uninitialised machine. */
    constructor ()
      ensures Valid()
      ensures curState == None && curStateTimeout == 0
      ensures kvTimeouts == map[] && states == map[] && trace == []
    {
      curState := None;
      curStateTimeout := 0;
      kvTimeouts := map[];
      states := map[];
      trace := [];
    }

    /**
     * `InitStateMachine`: validate the table; on failure report why and
     * change nothing; on success install the table, enter `initState` and
     * start with an empty registry.
     */
    method InitStateMachine(initState: StateId, table: seq<State>, now: int) returns (err: Option<Error>)
      requires Valid()
      modifies this
      ensures Valid()
      ensures Validate(initState, table).Err? ==>
        err == Some(Validate(initState, table).error) && unchanged(this)
      ensures Validate(initState, table).Ok? ==>
        && err == None
        && states == Validate(initState, table).value
        && curState == Some(CurState(states[initState], false, None))
        && kvTimeouts == map[]
        && curStateTimeout ==
             (if initState != 0 || states[initState].timeout > 0
              then AddTimeoutSecondFromNow(now, states[initState].timeout)
              else old(curStateTimeout))
        && trace == old(trace) + (if initState != 0 then EntryEvents(states[initState]) else [])
    {
      var checked := CheckTable(initState, table);
      if checked.Err? {
        return Some(checked.error);
      }
      var stateList := checked.value;
      ValidateSpec(initState, table);
      var init := stateList[initState];
      curState := Some(CurState(init, false, None));
      if init.timeout > 0 {
        curStateTimeout := AddTimeoutSecondFromNow(now, init.timeout);
      }
      kvTimeouts := map[];
      states := stateList;
      err := EnterState(initState, false, now);
    }

    /** `State`: the id of the active state, which is a row of the table. */
    method State() returns (id: StateId)
      requires Valid() && curState.Some?
      ensures id == curState.value.state.current
      ensures id in states && states[id] == curState.value.state
    {
      id := curState.value.state.current;
    }

    /** `InsertKeyValueTimeout`: add a keyed timeout due `kv.timeout` seconds from now, unless the key is taken. */
    method InsertKeyValueTimeout(kv: KVTimeout<K, V>, now: int) returns (err: Option<Error>)
      requires Valid() && curState.Some?
      modifies this
      ensures Valid()
      ensures curState == old(curState) && curStateTimeout == old(curStateTimeout)
      ensures states == old(states) && trace == old(trace)
      ensures kv.key in old(kvTimeouts) ==> err == Some(AlreadyHasKey) && kvTimeouts == old(kvTimeouts)
      ensures kv.key !in old(kvTimeouts) ==>
        && err == None
        && kvTimeouts == old(kvTimeouts)[kv.key := kv.(timeoutTs := AddTimeoutSecondFromNow(now, kv.timeout))]
    {
      var stamped := kv.(timeoutTs := AddTimeoutSecondFromNow(now, kv.timeout));
      if kv.key in kvTimeouts {
        return Some(AlreadyHasKey);
      }
      kvTimeouts := kvTimeouts[kv.key := stamped];
      err := None;
    }

    /**
     * `UpdateKeyValueTimeout`: on a present key replace value, timeout and
     * deadline and keep the stored callback; on an absent key store `kv` as
     * given, deadline included.
     */
    method UpdateKeyValueTimeout(kv: KVTimeout<K, V>, now: int)
      requires Valid() && curState.Some?
      modifies this
      ensures Valid()
      ensures curState == old(curState) && curStateTimeout == old(curStateTimeout)
      ensures states == old(states) && trace == old(trace)
      ensures kv.key in old(kvTimeouts) ==>
        kvTimeouts == old(kvTimeouts)[kv.key := old(kvTimeouts)[kv.key].(
          value := kv.value,
          timeout := kv.timeout,
          timeoutTs := AddTimeoutSecondFromNow(now, kv.timeout))]
      ensures kv.key !in old(kvTimeouts) ==> kvTimeouts == old(kvTimeouts)[kv.key := kv]
    {
      if kv.key in kvTimeouts {
        var oldV := kvTimeouts[kv.key];
        kvTimeouts := kvTimeouts[kv.key := oldV.(
          value := kv.value,
          timeout := kv.timeout,
          timeoutTs := AddTimeoutSecondFromNow(now, kv.timeout))];
        return;
      }
      kvTimeouts := kvTimeouts[kv.key := kv];
    }

    /** `DelKeyValueTimeout` / `delKeyValueTimeout`: remove `key` if present. */
    method DelKeyValueTimeout(key: K)
      requires Valid()
      modifies this
      ensures Valid()
      ensures curState == old(curState) && curStateTimeout == old(curStateTimeout)
      ensures states == old(states) && trace == old(trace)
      ensures key !in kvTimeouts
      ensures kvTimeouts == old(kvTimeouts) - {key}
    {
      kvTimeouts := kvTimeouts - {key};
    }

    /** `GetKeyValueTimeout`: the entry stored under `key`, if any. */
    method GetKeyValueTimeout(key: K) returns (v: Option<KVTimeout<K, V>>)
      requires Valid()
      ensures v.Some? <==> key in kvTimeouts
      ensures v.Some? ==> v.value == kvTimeouts[key] && v.value.key == key
    {
      if key in kvTimeouts {
        v := Some(kvTimeouts[key]);
      } else {
        v := None;
      }
    }

    /** `GotoNext`: follow the active state's successor, if it has one. */
    method GotoNext(now: int) returns (err: Option<Error>)
      requires Valid() && curState.Some?
      modifies this
      ensures Valid() && curState.Some? && err == None && states == old(states)
      ensures old(curState.value.state.next) == 0 ==> unchanged(this)
      ensures old(curState.value.state.next) != 0 ==>
        var s := states[old(curState.value.state.next)];
        && curState == Some(old(curState.value).(state := s, isTimeoutExit := false))
        && curStateTimeout == AddTimeoutSecondFromNow(now, s.timeout)
        && kvTimeouts == map[]
        && trace == old(trace) + EntryEvents(s)
    {
      err := EnterNext(false, now);
    }

    /** `GotoState`: enter `id` on request, whatever the active state's successor. */
    method GotoState(id: StateId, now: int) returns (err: Option<Error>)
      requires Valid() && curState.Some?
      modifies this
      ensures Valid() && curState.Some? && states == old(states)
      ensures id == 0 ==> err == None && unchanged(this)
      ensures id != 0 && id !in states ==> err == Some(NotFoundState(id)) && unchanged(this)
      ensures id != 0 && id in states ==>
        && err == None
        && curState == Some(old(curState.value).(state := states[id], isTimeoutExit := false))
        && curStateTimeout == AddTimeoutSecondFromNow(now, states[id].timeout)
        && kvTimeouts == map[]
        && trace == old(trace) + EntryEvents(states[id])
    {
      err := EnterState(id, false, now);
    }

    /**
     * `Tick`: `timeNow` is the caller's time, `now` the clock read for a new
     * deadline. If the active state's own timeout has fired, leave it for its
     * successor with `isTimeoutExit` set and look at nothing else; otherwise
     * fire and remove every keyed timeout that is due, each exactly once,
     * and keep the others.
     */
    method Tick(timeNow: int, now: int) returns (err: Option<Error>, ghost firedKeys: seq<K>)
      requires Valid() && curState.Some?
      modifies this
      ensures Valid() && curState.Some? && err == None && states == old(states)
      ensures StateTimedOut(old(curState.value.state), old(curStateTimeout), timeNow) ==>
        var s := states[old(curState.value.state.next)];
        && curState == Some(old(curState.value).(state := s, isTimeoutExit := true))
        && curStateTimeout == AddTimeoutSecondFromNow(now, s.timeout)
        && kvTimeouts == map[]
        && firedKeys == []
        && trace == old(trace) + ExitEvents(old(curState.value.state)) + EntryEvents(s)
      ensures !StateTimedOut(old(curState.value.state), old(curStateTimeout), timeNow) ==>
        && curState == old(curState) && curStateTimeout == old(curStateTimeout)
        && kvTimeouts == Pending(old(kvTimeouts), timeNow)
        && Distinct(firedKeys)
        && (forall k :: k in firedKeys <==> k in DueKeys(old(kvTimeouts), timeNow))
        && trace == old(trace) + KeyEvents(firedKeys, old(kvTimeouts))
    {
      var cur := curState.value.state;
      if timeNow >= curStateTimeout && cur.next != 0 && cur.timeout != 0 {
        if cur.hasExitCallback {
          trace := trace + [Exited(cur.current)];
        }
        err := EnterNext(true, now);
        firedKeys := [];
        return;
      }

      ghost var reg := kvTimeouts;
      var remaining := kvTimeouts.Keys;
      firedKeys := [];
      while remaining != {}
        invariant curState == old(curState) && curStateTimeout == old(curStateTimeout)
        invariant states == old(states)
        invariant remaining <= reg.Keys
        invariant kvTimeouts == map k | k in reg && (k in remaining || timeNow < reg[k].timeoutTs) :: reg[k]
        invariant Distinct(firedKeys)
        invariant forall k {:trigger k in firedKeys} :: k in firedKeys ==>
          k in reg && k !in remaining && timeNow >= reg[k].timeoutTs
        invariant forall k {:trigger k in reg} :: k in reg && k !in remaining && timeNow >= reg[k].timeoutTs ==>
          k in firedKeys
        invariant trace == old(trace) + KeyEvents(firedKeys, reg)
        decreases remaining
      {
        var k :| k in remaining;
        var v := kvTimeouts[k];
        assert v == reg[k];
        if timeNow >= v.timeoutTs {
          trace := trace + [KeyTimedOut(v.callback, k, v.value, v.timeout)];
          kvTimeouts := kvTimeouts - {k};  // delKeyValueTimeout
          ghost var before := firedKeys;
          assert k !in firedKeys;
          DistinctSnoc(firedKeys, k);
          firedKeys := firedKeys + [k];
          assert firedKeys[..|firedKeys| - 1] == before;
        }
        remaining := remaining - {k};
      }
      err := None;
    }

    /** `gotoNext`: enter the active state's successor, if non-zero, recording `isTimeout`. */
    method EnterNext(isTimeout: bool, now: int) returns (err: Option<Error>)
      requires Valid() && curState.Some?
      modifies this
      ensures Valid() && curState.Some? && err == None && states == old(states)
      ensures old(curState.value.state.next) == 0 ==> unchanged(this)
      ensures old(curState.value.state.next) != 0 ==>
        var s := states[old(curState.value.state.next)];
        && curState == Some(old(curState.value).(state := s, isTimeoutExit := isTimeout))
        && curStateTimeout == AddTimeoutSecondFromNow(now, s.timeout)
        && kvTimeouts == map[]
        && trace == old(trace) + EntryEvents(s)
    {
      var next := curState.value.state.next;
      if next != 0 {
        err := EnterState(next, isTimeout, now);
        return;
      }
      err := None;
    }

    /**
     * `gotoState`: id 0 is a no-op and an unknown id an error that changes
     * nothing; otherwise the active state becomes `states[id]` (custom data
     * kept), its deadline restarts from `now`, the registry is emptied, and
     * the entry callback runs.
     */
    method EnterState(id: StateId, isTimeout: bool, now: int) returns (err: Option<Error>)
      requires Valid() && curState.Some?
      modifies this
      ensures Valid() && curState.Some? && states == old(states)
      ensures id == 0 ==> err == None && unchanged(this)
      ensures id != 0 && id !in states ==> err == Some(NotFoundState(id)) && unchanged(this)
      ensures id != 0 && id in states ==>
        && err == None
        && curState == Some(old(curState.value).(state := states[id], isTimeoutExit := isTimeout))
        && curStateTimeout == AddTimeoutSecondFromNow(now, states[id].timeout)
        && kvTimeouts == map[]
        && trace == old(trace) + EntryEvents(states[id])
    {
      if id == 0 {
        return None;
      }
      if id in states {
        var s := states[id];
        curState := Some(curState.value.(state := s, isTimeoutExit := isTimeout));
        curStateTimeout := AddTimeoutSecondFromNow(now, s.timeout);
        kvTimeouts := map[];
        if s.hasEntryCallback {
          trace := trace + [Entered(s.current)];
        }
        return None;
      }
      return Some(NotFoundState(id));
    }
  }
}
