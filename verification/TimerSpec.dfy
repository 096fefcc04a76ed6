/** The simple timer service: a map of live timers and nothing else. The event loop's
    heap, tombstones and armed deadline are proved to implement it.

    Time is counted in clock ticks of a nanosecond; delays are milliseconds. What a
    JavaScript callback does is an arbitrary list of schedule and cancel actions, each
    with the clock reading it makes. */
module TimerSpec {

  type Id = int
  type Func = int
  type Time = int

  /** Ticks per millisecond. */
  const MS: int := 1_000_000

  datatype Timer = Timer(func: Func, expiry: Time, repeating: bool, interval: int)

  datatype Timers = Timers(live: map<Id, Timer>, nextId: Id)

  datatype Action =
    | Schedule(func: Func, ms: int, repeating: bool, now: Time)
    | Cancel(id: Id)

  datatype Callback = Callback(actions: seq<Action>, throws: bool)

  datatype Call = Call(id: Id, callback: Callback)

  // ---------------------------------------------------------------------------
  // Steps
  // ---------------------------------------------------------------------------

  function Do(s: Timers, a: Action): Timers {
    match a
    case Schedule(func, ms, repeating, now) =>
      Timers(s.live[s.nextId := Timer(func, now + ms * MS, repeating, ms)], s.nextId + 1)
    case Cancel(id) =>
      s.(live := s.live - {id})
  }

  function DoAll(s: Timers, actions: seq<Action>): Timers
    decreases |actions|
  {
    if actions == [] then s else DoAll(Do(s, actions[0]), actions[1..])
  }

  /** The next expiry of a repeating timer that was due at `expiry` and runs at `now`. */
  function Rearm(expiry: Time, interval: int, now: Time): Time {
    if expiry + interval * MS <= now then now + interval * MS else expiry + interval * MS
  }

  /** After its callback a timer that is still live is rearmed or retired. */
  function Finish(s: Timers, id: Id, now: Time): Timers {
    if id !in s.live then s
    else
      var t := s.live[id];
      if t.repeating then s.(live := s.live[id := t.(expiry := Rearm(t.expiry, t.interval, now))])
      else s.(live := s.live - {id})
  }

  function Fire(s: Timers, call: Call, now: Time): Timers {
    Finish(DoAll(s, call.callback.actions), call.id, now)
  }

  predicate DueAt(s: Timers, id: Id, now: Time) {
    id in s.live && s.live[id].expiry <= now
  }

  ghost predicate NoneDue(s: Timers, now: Time) {
    forall id :: !DueAt(s, id, now)
  }

  /** `id` may run next: it is due and no live timer expires earlier. */
  ghost predicate MayRun(s: Timers, id: Id, now: Time) {
    DueAt(s, id, now) && forall k | k in s.live :: s.live[id].expiry <= s.live[k].expiry
  }

  /** The calls of a pass in progress, leading from `s` to `s'`. */
  ghost predicate Pass(s: Timers, now: Time, calls: seq<Call>, s': Timers)
    decreases |calls|
  {
    if calls == [] then s' == s
    else MayRun(s, calls[0].id, now) && Pass(Fire(s, calls[0], now), now, calls[1..], s')
  }

  lemma {:induction false} PassExtend(s: Timers, now: Time, calls: seq<Call>, s': Timers, call: Call)
    requires Pass(s, now, calls, s') && MayRun(s', call.id, now)
    ensures Pass(s, now, calls + [call], Fire(s', call, now))
    decreases |calls|
  {
    if calls == [] {
      assert (calls + [call])[1..] == [];
    } else {
      assert (calls + [call])[1..] == calls[1..] + [call];
      PassExtend(Fire(s, calls[0], now), now, calls[1..], s', call);
    }
  }

  /** The state after the calls of a pass. */
  function FireAll(s: Timers, calls: seq<Call>, now: Time): Timers
    decreases |calls|
  {
    if calls == [] then s else FireAll(Fire(s, calls[0], now), calls[1..], now)
  }

  lemma {:induction false} PassIsFireAll(s: Timers, now: Time, calls: seq<Call>, s': Timers)
    requires Pass(s, now, calls, s')
    ensures s' == FireAll(s, calls, now)
    decreases |calls|
  {
    if calls != [] {
      PassIsFireAll(Fire(s, calls[0], now), now, calls[1..], s');
    }
  }

  // ---------------------------------------------------------------------------
  // One turn
  // ---------------------------------------------------------------------------

  /** The callback schedules nothing that is due at `now` already. */
  ghost predicate Forward(callback: Callback, now: Time) {
    forall i | 0 <= i < |callback.actions| ::
      var a := callback.actions[i];
      a.Schedule? ==> a.now + a.ms * MS > now
  }

  ghost predicate AllForward(calls: seq<Call>, now: Time) {
    forall i | 0 <= i < |calls| :: Forward(calls[i].callback, now)
  }

  /** A due timer that rearms itself at or before `now`. */
  predicate Stuck(s: Timers, id: Id, now: Time) {
    DueAt(s, id, now) && s.live[id].repeating && s.live[id].interval < 1
  }

  ghost predicate NoneStuck(s: Timers, now: Time) {
    forall id :: !Stuck(s, id, now)
  }

  ghost predicate IdsBelow(s: Timers) {
    forall id | id in s.live :: id < s.nextId
  }

  predicate Cancels(callback: Callback, id: Id) {
    Cancel(id) in callback.actions
  }

  /** Actions remove exactly the live timers they cancel and leave the others as they are. */
  lemma {:induction false} ActionsCancel(s: Timers, actions: seq<Action>, id: Id)
    requires id < s.nextId
    ensures DoAll(s, actions).nextId >= s.nextId
    ensures id in DoAll(s, actions).live <==> id in s.live && Cancel(id) !in actions
    ensures id in DoAll(s, actions).live ==> DoAll(s, actions).live[id] == s.live[id]
    decreases |actions|
  {
    if actions != [] {
      assert Cancel(id) in actions <==> Cancel(id) == actions[0] || Cancel(id) in actions[1..];
      ActionsCancel(Do(s, actions[0]), actions[1..], id);
    }
  }

  lemma {:induction false} ActionsKeepIds(s: Timers, actions: seq<Action>)
    requires IdsBelow(s)
    ensures IdsBelow(DoAll(s, actions)) && DoAll(s, actions).nextId >= s.nextId
    decreases |actions|
  {
    if actions != [] {
      ActionsKeepIds(Do(s, actions[0]), actions[1..]);
    }
  }

  lemma ForwardTail(actions: seq<Action>, now: Time)
    requires actions != [] && Forward(Callback(actions, false), now)
    ensures actions[0].Schedule? ==> actions[0].now + actions[0].ms * MS > now
    ensures Forward(Callback(actions[1..], false), now)
  {
    var c := Callback(actions, false);
    assert c.actions[0] == actions[0];
    forall i | 0 <= i < |actions| - 1
      ensures actions[1..][i] == c.actions[i + 1]
    {
    }
  }

  /** What forward actions add is not due. */
  lemma {:induction false} ActionsAddNoneDue(s: Timers, actions: seq<Action>, now: Time, id: Id)
    requires Forward(Callback(actions, false), now) && !DueAt(s, id, now)
    ensures !DueAt(DoAll(s, actions), id, now)
    decreases |actions|
  {
    if actions != [] {
      ForwardTail(actions, now);
      ActionsAddNoneDue(Do(s, actions[0]), actions[1..], now, id);
    }
  }

  /** One turn, whatever the callback does: of the timers given out before it the due ones
      that the callback does not cancel stay due and unchanged, its own excepted, which
      stays due exactly if it is stuck. */
  lemma FireAndDue(s: Timers, call: Call, now: Time, id: Id)
    requires DueAt(s, call.id, now) && IdsBelow(s) && id < s.nextId
    ensures var s' := Fire(s, call, now);
            && IdsBelow(s') && s'.nextId >= s.nextId
            && (DueAt(s', id, now) <==>
                  && DueAt(s, id, now) && !Cancels(call.callback, id)
                  && (id == call.id ==> Stuck(s, id, now)))
            && (id != call.id && DueAt(s', id, now) ==> s'.live[id] == s.live[id])
            && (Stuck(s', id, now) ==> Stuck(s, id, now))
            && (Stuck(s, id, now) && !Cancels(call.callback, id) ==> Stuck(s', id, now))
  {
    ActionsCancel(s, call.callback.actions, id);
    ActionsKeepIds(s, call.callback.actions);
  }

  /** A forward turn adds nothing due, and no stuck timer. */
  lemma FireAddsNoneDue(s: Timers, call: Call, now: Time, id: Id)
    requires DueAt(s, call.id, now) && IdsBelow(s) && Forward(call.callback, now) && id >= s.nextId
    ensures !DueAt(Fire(s, call, now), id, now)
  {
    assert Forward(Callback(call.callback.actions, false), now);
    ActionsAddNoneDue(s, call.callback.actions, now, id);
  }

  /** What is due in `s'` was due in `s` already, unchanged. */
  ghost predicate DueShrinks(s: Timers, s': Timers, now: Time) {
    forall id | DueAt(s', id, now) :: DueAt(s, id, now) && s'.live[id] == s.live[id]
  }

  lemma ForwardTurn(s: Timers, call: Call, now: Time)
    requires DueAt(s, call.id, now) && IdsBelow(s) && Forward(call.callback, now) && NoneStuck(s, now)
    ensures var s' := Fire(s, call, now);
            && IdsBelow(s') && s'.nextId >= s.nextId && NoneStuck(s', now)
            && DueShrinks(s, s', now)
            && !DueAt(s', call.id, now)
  {
    var s' := Fire(s, call, now);
    FireAndDue(s, call, now, call.id);
    hide Fire;
    forall id
      ensures DueAt(s', id, now) ==> DueAt(s, id, now) && id != call.id && s'.live[id] == s.live[id]
    {
      if id < s.nextId {
        FireAndDue(s, call, now, id);
      } else {
        FireAddsNoneDue(s, call, now, id);
      }
    }
    assert forall id :: Stuck(s', id, now) ==> Stuck(s, id, now);
  }

  lemma {:induction false} DoAllSplit(s: Timers, first: seq<Action>, second: seq<Action>)
    ensures DoAll(s, first + second) == DoAll(DoAll(s, first), second)
    decreases |first|
  {
    if first == [] {
      assert first + second == second;
    } else {
      assert (first + second)[1..] == first[1..] + second;
      DoAllSplit(Do(s, first[0]), first[1..], second);
    }
  }

  /** How many timers a list of actions creates. */
  function Schedules(actions: seq<Action>): nat
    decreases |actions|
  {
    if actions == [] then 0 else (if actions[0].Schedule? then 1 else 0) + Schedules(actions[1..])
  }

  /** Ids are given out consecutively. */
  lemma {:induction false} IdsAreConsecutive(s: Timers, actions: seq<Action>)
    ensures DoAll(s, actions).nextId == s.nextId + Schedules(actions)
    decreases |actions|
  {
    if actions != [] {
      IdsAreConsecutive(Do(s, actions[0]), actions[1..]);
    }
  }

  /** A timer that a callback creates takes the next id and lives on exactly if the callback
      does not cancel it again; then it is as ordered, and due in the same pass exactly if
      its delay has run out at the clock reading of the pass. */
  lemma NewDueIff(s: Timers, call: Call, now: Time, k: nat)
    requires DueAt(s, call.id, now) && IdsBelow(s)
    requires k < |call.callback.actions| && call.callback.actions[k].Schedule?
    ensures var actions := call.callback.actions;
            var a, id, s' := actions[k], s.nextId + Schedules(actions[..k]), Fire(s, call, now);
            && (id in s'.live <==> Cancel(id) !in actions[k + 1..])
            && (id in s'.live ==> s'.live[id] == Timer(a.func, a.now + a.ms * MS, a.repeating, a.ms))
            && (DueAt(s', id, now) <==> a.now + a.ms * MS <= now && Cancel(id) !in actions[k + 1..])
  {
    var actions := call.callback.actions;
    var s1 := DoAll(s, actions[..k]);
    var s2 := Do(s1, actions[k]);
    IdsAreConsecutive(s, actions[..k]);
    assert actions == actions[..k] + ([actions[k]] + actions[k + 1..]);
    assert ([actions[k]] + actions[k + 1..])[1..] == actions[k + 1..];
    DoAllSplit(s, actions[..k], [actions[k]] + actions[k + 1..]);
    assert DoAll(s, actions) == DoAll(s2, actions[k + 1..]);
    ActionsCancel(s2, actions[k + 1..], s1.nextId);
  }

  /** One turn as seen by a timer given out before it: it lives on exactly if the callback
      does not cancel it and it is not the one-shot timer whose turn it was. The timer whose
      turn it was is next due one interval after its last expiry, or one interval from now
      if that has passed already. */
  lemma TurnLaw(s: Timers, call: Call, now: Time, id: Id)
    requires DueAt(s, call.id, now) && IdsBelow(s) && id < s.nextId
    ensures var s' := Fire(s, call, now);
            && IdsBelow(s') && id < s'.nextId
            && (id in s'.live <==>
                  id in s.live && !Cancels(call.callback, id) && (id == call.id ==> s.live[id].repeating))
            && (id in s'.live && id != call.id ==> s'.live[id] == s.live[id])
            && (id in s'.live && id == call.id ==>
                  var t := s.live[id];
                  var next := t.expiry + t.interval * MS;
                  s'.live[id] == t.(expiry := if next > now then next else now + t.interval * MS))
  {
    ActionsCancel(s, call.callback.actions, id);
    ActionsKeepIds(s, call.callback.actions);
  }

  // ---------------------------------------------------------------------------
  // One pass
  // ---------------------------------------------------------------------------

  /** A pass calls only timers that were due when it began, in the order of their
      expiries, each at most once and none that an earlier callback of the pass
      cancelled. */
  lemma {:induction false} PassCallsDueInOrder(s: Timers, now: Time, calls: seq<Call>, s': Timers)
    requires Pass(s, now, calls, s') && AllForward(calls, now) && NoneStuck(s, now) && IdsBelow(s)
    ensures forall i | 0 <= i < |calls| :: DueAt(s, calls[i].id, now)
    ensures forall i, j | 0 <= i < j < |calls| ::
              && DueAt(s, calls[i].id, now) && DueAt(s, calls[j].id, now)
              && s.live[calls[i].id].expiry <= s.live[calls[j].id].expiry
              && calls[i].id != calls[j].id
              && !Cancels(calls[i].callback, calls[j].id)
    ensures NoneStuck(s', now) && IdsBelow(s') && s'.nextId >= s.nextId
    decreases |calls|
  {
    if calls != [] {
      var s1, rest := Fire(s, calls[0], now), calls[1..];
      assert Forward(calls[0].callback, now);
      ForwardTurn(s, calls[0], now);
      assert forall i | 0 <= i < |rest| :: rest[i] == calls[i + 1];
      PassCallsDueInOrder(s1, now, rest, s');
      forall j | 1 <= j < |calls|
        ensures DueAt(s1, calls[j].id, now) && !Cancels(calls[0].callback, calls[j].id)
      {
        assert calls[j] == rest[j - 1];
        FireAndDue(s, calls[0], now, calls[j].id);
      }
    }
  }

  /** A finished pass misses none, whatever its callbacks do: every timer that was due was
      called or cancelled by a callback of the pass. */
  lemma {:induction false} PassMissesNone(s: Timers, now: Time, calls: seq<Call>, s': Timers, id: Id)
    requires Pass(s, now, calls, s') && IdsBelow(s)
    requires NoneDue(s', now) && DueAt(s, id, now)
    ensures exists i | 0 <= i < |calls| :: calls[i].id == id || Cancels(calls[i].callback, id)
    decreases |calls|
  {
    assert !DueAt(s', id, now);
    if calls != [] && calls[0].id != id && !Cancels(calls[0].callback, id) {
      var s1, rest := Fire(s, calls[0], now), calls[1..];
      FireAndDue(s, calls[0], now, id);
      assert forall i | 0 <= i < |rest| :: rest[i] == calls[i + 1];
      PassMissesNone(s1, now, rest, s', id);
      var i :| 0 <= i < |rest| && (rest[i].id == id || Cancels(rest[i].callback, id));
      assert calls[i + 1] == rest[i];
    }
  }

  // ---------------------------------------------------------------------------
  // When a pass ends
  // ---------------------------------------------------------------------------

  const IDLE: Callback := Callback([], false)

  /** The k-th call of the pass does what `oracle(k)` says. */
  ghost predicate Obeys(calls: seq<Call>, oracle: nat -> Callback) {
    forall k | 0 <= k < |calls| :: calls[k].callback == oracle(k)
  }

  ghost predicate AlwaysForward(oracle: nat -> Callback, now: Time) {
    forall k: nat :: Forward(oracle(k), now)
  }

  /** The pass at `now` can come to an end if its callbacks are those of `oracle`. */
  ghost predicate CanEnd(s: Timers, now: Time, oracle: nat -> Callback) {
    exists calls, s' :: Obeys(calls, oracle) && Pass(s, now, calls, s') && NoneDue(s', now)
  }

  /** Only being cancelled ends the turns of a stuck timer. */
  lemma {:induction false} StuckStays(s: Timers, now: Time, calls: seq<Call>, s': Timers, id: Id)
    requires Stuck(s, id, now) && IdsBelow(s) && Pass(s, now, calls, s')
    requires forall i | 0 <= i < |calls| :: !Cancels(calls[i].callback, id)
    ensures Stuck(s', id, now)
    decreases |calls|
  {
    if calls != [] {
      var rest := calls[1..];
      assert forall i | 0 <= i < |rest| :: rest[i] == calls[i + 1];
      FireAndDue(s, calls[0], now, id);
      StuckStays(Fire(s, calls[0], now), now, rest, s', id);
    }
  }

  /** While no callback cancels a stuck timer, the pass does not end. */
  lemma StuckNeverEnds(s: Timers, now: Time, oracle: nat -> Callback, id: Id)
    requires Stuck(s, id, now) && IdsBelow(s)
    requires forall k: nat :: !Cancels(oracle(k), id)
    ensures !CanEnd(s, now, oracle)
  {
    forall calls: seq<Call>, s' | Obeys(calls, oracle) && Pass(s, now, calls, s')
      ensures !NoneDue(s', now)
    {
      StuckStays(s, now, calls, s', id);
      assert DueAt(s', id, now);
    }
  }

  /** `setInterval(f, 0)` in a new context: the first pass that finds it due never ends,
      unless a callback clears it. */
  lemma ZeroIntervalNeverEnds(func: Func, start: Time, now: Time, oracle: nat -> Callback)
    requires start <= now && forall k: nat :: !Cancels(oracle(k), 1)
    ensures !CanEnd(Do(Timers(map[], 1), Schedule(func, 0, true, start)), now, oracle)
  {
    StuckNeverEnds(Do(Timers(map[], 1), Schedule(func, 0, true, start)), now, oracle, 1);
  }

  /** The last thing the callback does is to schedule a timer that is due already. */
  predicate Chains(callback: Callback, now: Time) {
    && callback.actions != []
    && var a := callback.actions[|callback.actions| - 1];
    && a.Schedule? && a.now + a.ms * MS <= now
  }

  /** A pass does not end with a callback that chains, such as one that calls
      `setTimeout(f, 0)` last and reads the clock at the tick of the pass. */
  lemma {:induction false} ChainingCallIsNotLast(s: Timers, now: Time, calls: seq<Call>, s': Timers)
    requires Pass(s, now, calls, s') && IdsBelow(s)
    requires calls != [] && Chains(calls[|calls| - 1].callback, now)
    ensures !NoneDue(s', now)
    decreases |calls|
  {
    var s1 := Fire(s, calls[0], now);
    if |calls| == 1 {
      var actions := calls[0].callback.actions;
      NewDueIff(s, calls[0], now, |actions| - 1);
      assert calls[1..] == [];
      assert DueAt(s', s.nextId + Schedules(actions[..|actions| - 1]), now);
    } else {
      ActionsKeepIds(s, calls[0].callback.actions);
      ChainingCallIsNotLast(s1, now, calls[1..], s');
    }
  }

  /** If every callback chains, a pass that finds a due timer never ends. */
  lemma ChainedPassNeverEnds(s: Timers, now: Time, oracle: nat -> Callback)
    requires IdsBelow(s) && !NoneDue(s, now) && forall k: nat :: Chains(oracle(k), now)
    ensures !CanEnd(s, now, oracle)
  {
    forall calls: seq<Call>, s' | Obeys(calls, oracle) && Pass(s, now, calls, s')
      ensures !NoneDue(s', now)
    {
      if calls != [] {
        assert calls[|calls| - 1].callback == oracle(|calls| - 1);
        ChainingCallIsNotLast(s, now, calls, s');
      }
    }
  }

  ghost function DueIds(s: Timers, now: Time): set<Id> {
    set id | id in s.live && s.live[id].expiry <= now
  }

  lemma {:induction false} SoonestExists(live: map<Id, Timer>, ids: set<Id>, some: Id) returns (id: Id)
    requires some in ids && forall k | k in ids :: k in live
    ensures id in ids && forall k | k in ids :: live[id].expiry <= live[k].expiry
    decreases |ids|
  {
    id := some;
    var rest := ids - {some};
    assert forall k | k in ids && k != some :: k in rest;
    if other :| other in rest {
      var k := SoonestExists(live, rest, other);
      if live[k].expiry < live[some].expiry {
        id := k;
      }
    }
  }

  lemma ObeysCons(call: Call, calls: seq<Call>, oracle: nat -> Callback)
    requires call.callback == oracle(0) && Obeys(calls, (k: nat) => oracle(k + 1))
    ensures Obeys([call] + calls, oracle)
  {
    forall k | 0 <= k < |[call] + calls|
      ensures ([call] + calls)[k].callback == oracle(k)
    {
      if k > 0 {
        assert ([call] + calls)[k] == calls[k - 1];
      }
    }
  }

  lemma DueIdsShrink(s: Timers, s1: Timers, now: Time, id: Id)
    requires DueShrinks(s, s1, now) && DueAt(s, id, now) && !DueAt(s1, id, now)
    ensures |DueIds(s1, now)| < |DueIds(s, now)|
  {
    var before, after := DueIds(s, now), DueIds(s1, now);
    forall k | k in after
      ensures k in before - {id}
    {
      assert DueAt(s1, k, now);
    }
    assert id in before;
    assert before == (before - {id}) + {id};
    assert (before - {id}) == after + ((before - {id}) - after);
  }

  lemma {:induction false} ForwardPassEnds(s: Timers, now: Time, oracle: nat -> Callback)
    requires NoneStuck(s, now) && IdsBelow(s) && AlwaysForward(oracle, now)
    ensures CanEnd(s, now, oracle)
    decreases |DueIds(s, now)|
  {
    if some :| some in DueIds(s, now) {
      var id := SoonestExists(s.live, DueIds(s, now), some);
      var call := Call(id, oracle(0));
      var s1 := Fire(s, call, now);
      var later := (k: nat) => oracle(k + 1);
      assert MayRun(s, id, now);
      ForwardTurn(s, call, now);
      DueIdsShrink(s, s1, now, id);
      ForwardPassEnds(s1, now, later);
      var calls, s' :| Obeys(calls, later) && Pass(s1, now, calls, s') && NoneDue(s', now);
      ObeysCons(call, calls, oracle);
      assert ([call] + calls)[1..] == calls;
      assert Pass(s, now, [call] + calls, s');
    } else {
      assert forall id :: DueAt(s, id, now) ==> id in DueIds(s, now);
      assert Obeys([], oracle) && Pass(s, now, [], s) && NoneDue(s, now);
    }
  }

  /** Among callbacks that schedule nothing due at once, all let the pass end exactly when
      no due timer repeats with an interval below one millisecond. */
  lemma PassEndsIff(s: Timers, now: Time)
    requires IdsBelow(s)
    ensures (forall oracle | AlwaysForward(oracle, now) :: CanEnd(s, now, oracle)) <==> NoneStuck(s, now)
  {
    if NoneStuck(s, now) {
      forall oracle | AlwaysForward(oracle, now)
        ensures CanEnd(s, now, oracle)
      {
        ForwardPassEnds(s, now, oracle);
      }
    } else {
      var id :| Stuck(s, id, now);
      var idle := (k: nat) => IDLE;
      StuckNeverEnds(s, now, idle, id);
      assert AlwaysForward(idle, now);
    }
  }

  // ---------------------------------------------------------------------------
  // Runs
  // ---------------------------------------------------------------------------

  /** What happens between the handlers of a run, and a handler's pass. */
  datatype Step =
    | Script(action: Action)
    | Handler(now: Time, calls: seq<Call>)

  ghost predicate StepTo(s: Timers, step: Step, s': Timers) {
    match step
    case Script(a) => s' == Do(s, a)
    case Handler(now, calls) => Pass(s, now, calls, s')
  }

  ghost predicate Steps(s: Timers, steps: seq<Step>, s': Timers)
    decreases |steps|
  {
    if steps == [] then s' == s
    else exists s1 :: StepTo(s, steps[0], s1) && Steps(s1, steps[1..], s')
  }

  /** The state after a step, and after the steps of a run. */
  function After(s: Timers, step: Step): Timers {
    match step
    case Script(a) => Do(s, a)
    case Handler(now, calls) => FireAll(s, calls, now)
  }

  function AfterAll(s: Timers, steps: seq<Step>): Timers
    decreases |steps|
  {
    if steps == [] then s else AfterAll(After(s, steps[0]), steps[1..])
  }

  lemma StepIsAfter(s: Timers, step: Step, s': Timers)
    requires StepTo(s, step, s')
    ensures s' == After(s, step)
  {
    if step.Handler? {
      PassIsFireAll(s, step.now, step.calls, s');
    }
  }

  lemma {:induction false} StepsAppend(s: Timers, steps: seq<Step>, s1: Timers, step: Step, s': Timers)
    requires Steps(s, steps, s1) && StepTo(s1, step, s')
    ensures Steps(s, steps + [step], s')
    decreases |steps|
  {
    if steps == [] {
      assert ([] + [step])[1..] == [];
      assert Steps(s', [], s');
    } else {
      assert (steps + [step])[1..] == steps[1..] + [step];
      var m :| StepTo(s, steps[0], m) && Steps(m, steps[1..], s1);
      StepsAppend(m, steps[1..], s1, step, s');
    }
  }

  lemma {:induction false} AfterAllAppend(s: Timers, steps: seq<Step>, step: Step)
    ensures AfterAll(s, steps + [step]) == After(AfterAll(s, steps), step)
    decreases |steps|
  {
    if steps == [] {
      assert ([] + [step])[1..] == [];
    } else {
      assert (steps + [step])[1..] == steps[1..] + [step];
      AfterAllAppend(After(s, steps[0]), steps[1..], step);
    }
  }

  /** Every repeating timer has a positive interval. */
  ghost predicate PositiveIntervals(s: Timers) {
    forall id | id in s.live && s.live[id].repeating :: s.live[id].interval >= 1
  }

  ghost predicate Positive(action: Action) {
    action.Schedule? && action.repeating ==> action.ms >= 1
  }

  ghost predicate AllPositive(callback: Callback) {
    forall i | 0 <= i < |callback.actions| :: Positive(callback.actions[i])
  }

  lemma {:induction false} ActionsKeepPositive(s: Timers, actions: seq<Action>)
    requires PositiveIntervals(s) && forall i | 0 <= i < |actions| :: Positive(actions[i])
    ensures PositiveIntervals(DoAll(s, actions))
    decreases |actions|
  {
    if actions != [] {
      assert Positive(actions[0]);
      assert forall i | 0 <= i < |actions| - 1 :: actions[1..][i] == actions[i + 1];
      ActionsKeepPositive(Do(s, actions[0]), actions[1..]);
    }
  }

  lemma {:induction false} PassKeepsPositive(s: Timers, now: Time, calls: seq<Call>, s': Timers)
    requires PositiveIntervals(s) && Pass(s, now, calls, s')
    requires forall k | 0 <= k < |calls| :: AllPositive(calls[k].callback)
    ensures PositiveIntervals(s')
    decreases |calls|
  {
    if calls != [] {
      assert AllPositive(calls[0].callback);
      ActionsKeepPositive(s, calls[0].callback.actions);
      assert forall k | 0 <= k < |calls| - 1 :: calls[1..][k] == calls[k + 1];
      PassKeepsPositive(Fire(s, calls[0], now), now, calls[1..], s');
    }
  }

  // ---------------------------------------------------------------------------
  // Cancelled timers
  // ---------------------------------------------------------------------------

  /** `id` has been given out and is not live. */
  predicate Gone(s: Timers, id: Id) {
    id < s.nextId && id !in s.live
  }

  lemma {:induction false} GoneIsNotCalled(s: Timers, now: Time, calls: seq<Call>, s': Timers, id: Id)
    requires Gone(s, id) && Pass(s, now, calls, s')
    ensures Gone(s', id)
    ensures forall i | 0 <= i < |calls| :: calls[i].id != id
    decreases |calls|
  {
    if calls != [] {
      ActionsCancel(s, calls[0].callback.actions, id);
      GoneIsNotCalled(Fire(s, calls[0], now), now, calls[1..], s', id);
      assert forall i | 1 <= i < |calls| :: calls[i] == calls[1..][i - 1];
    }
  }

  /** No handler from step `from` on calls `id`. */
  ghost predicate NotCalledFrom(steps: seq<Step>, from: int, id: Id) {
    forall k | 0 <= k < |steps| && from <= k && steps[k].Handler? ::
      forall i | 0 <= i < |steps[k].calls| :: steps[k].calls[i].id != id
  }

  /** A timer that is gone is never called again in any run. */
  lemma {:induction false} NeverCalledAgain(s: Timers, steps: seq<Step>, s': Timers, id: Id)
    requires Gone(s, id) && Steps(s, steps, s')
    ensures Gone(s', id) && NotCalledFrom(steps, 0, id)
    decreases |steps|
  {
    if steps != [] {
      var rest := steps[1..];
      var s1 :| StepTo(s, steps[0], s1) && Steps(s1, rest, s');
      if steps[0].Handler? {
        GoneIsNotCalled(s, steps[0].now, steps[0].calls, s1, id);
      }
      NeverCalledAgain(s1, rest, s', id);
      assert forall k | 1 <= k < |steps| :: steps[k] == rest[k - 1];
    }
  }

  /** A callback that cancels a timer given out by then leaves it gone. */
  lemma CancelledByActions(s: Timers, actions: seq<Action>, a: nat, id: Id)
    requires a < |actions| && actions[a] == Cancel(id) && id < DoAll(s, actions[..a]).nextId
    ensures Gone(DoAll(s, actions), id)
  {
    var s1 := DoAll(s, actions[..a]);
    assert actions == actions[..a] + actions[a..];
    DoAllSplit(s, actions[..a], actions[a..]);
    ActionsCancel(s1, actions[a..], id);
    assert actions[a..][0] == Cancel(id);
  }

  /** The a-th action of the j-th call of the pass cancels `id`, which has been given out
      when that action executes. */
  predicate HitsInPass(s: Timers, now: Time, calls: seq<Call>, j: nat, a: nat, id: Id) {
    && j < |calls| && a < |calls[j].callback.actions|
    && calls[j].callback.actions[a] == Cancel(id)
    && id < DoAll(FireAll(s, calls[..j], now), calls[j].callback.actions[..a]).nextId
  }

  /** A callback that cancels a timer, its own or one created earlier in the pass
      included, makes it gone: no later call of the pass is for it. */
  lemma {:induction false} CancelInsidePass(s: Timers, now: Time, calls: seq<Call>, s': Timers, j: nat, a: nat, id: Id)
    requires Pass(s, now, calls, s') && HitsInPass(s, now, calls, j, a, id)
    ensures Gone(s', id)
    ensures forall i | j < i < |calls| :: calls[i].id != id
    decreases |calls|
  {
    var s1, rest := Fire(s, calls[0], now), calls[1..];
    assert forall i | 1 <= i < |calls| :: calls[i] == rest[i - 1];
    if j == 0 {
      CancelledByActions(s, calls[0].callback.actions, a, id);
      GoneIsNotCalled(s1, now, rest, s', id);
    } else {
      assert calls[..j][1..] == rest[..j - 1];
      CancelInsidePass(s1, now, rest, s', j - 1, a, id);
    }
  }

  /** The step cancels `id`, which has been given out when that action executes. */
  ghost predicate HitsAt(s: Timers, step: Step, id: Id) {
    match step
    case Script(a) => a == Cancel(id) && id < s.nextId
    case Handler(now, calls) => exists j, a :: HitsInPass(s, now, calls, j, a, id)
  }

  lemma CancelledByStep(s: Timers, step: Step, s': Timers, id: Id)
    requires StepTo(s, step, s') && HitsAt(s, step, id)
    ensures Gone(s', id)
  {
    if step.Handler? {
      var j, a :| HitsInPass(s, step.now, step.calls, j, a, id);
      CancelInsidePass(s, step.now, step.calls, s', j, a, id);
    }
  }

  /** Once a timer has been cancelled, by the main script or by any callback, no later
      handler of any run calls it. */
  lemma {:induction false} CancelledIsNeverCalled(s: Timers, steps: seq<Step>, s': Timers, k: nat, id: Id)
    requires Steps(s, steps, s')
    requires k < |steps| && HitsAt(AfterAll(s, steps[..k]), steps[k], id)
    ensures Gone(s', id) && NotCalledFrom(steps, k + 1, id)
    decreases |steps|
  {
    var rest := steps[1..];
    var s1 :| StepTo(s, steps[0], s1) && Steps(s1, rest, s');
    StepIsAfter(s, steps[0], s1);
    if k == 0 {
      CancelledByStep(s, steps[0], s1, id);
      NeverCalledAgain(s1, rest, s', id);
    } else {
      assert steps[..k][1..] == rest[..k - 1];
      CancelledIsNeverCalled(s1, rest, s', k - 1, id);
    }
    forall l | k < l < |steps| && steps[l].Handler?
      ensures forall i | 0 <= i < |steps[l].calls| :: steps[l].calls[i].id != id
    {
      assert steps[l] == rest[l - 1];
    }
  }

  // ---------------------------------------------------------------------------
  // Rearming
  // ---------------------------------------------------------------------------

  /** A due repeating timer is rearmed into the future, at most one interval ahead, and
      on its original grid when it is less than one interval late. */
  lemma RearmBounds(expiry: Time, interval: int, now: Time)
    requires expiry <= now && interval >= 1
    ensures now < Rearm(expiry, interval, now) <= now + interval * MS
    ensures now < expiry + interval * MS ==> Rearm(expiry, interval, now) == expiry + interval * MS
    ensures Rearm(expiry, interval, now) >= expiry + interval * MS
  {
  }

  /** How often `id` is called. */
  function CallsOf(calls: seq<Call>, id: Id): nat
    decreases |calls|
  {
    if calls == [] then 0 else (if calls[0].id == id then 1 else 0) + CallsOf(calls[1..], id)
  }

  function CallsIn(steps: seq<Step>, id: Id): nat
    decreases |steps|
  {
    if steps == [] then 0
    else (if steps[0].Handler? then CallsOf(steps[0].calls, id) else 0) + CallsIn(steps[1..], id)
  }

  /** From `t` to `t'` the timer keeps its interval and its expiry moves on by at least
      `n` intervals. */
  ghost predicate MovedOn(t: Timer, t': Timer, n: nat) {
    && t'.interval == t.interval && t'.repeating == t.repeating && t'.func == t.func
    && t'.expiry >= t.expiry + n * (t.interval * MS)
  }

  lemma MovedOnTwice(t: Timer, m: nat, t1: Timer, n: nat, t2: Timer)
    requires MovedOn(t, t1, m) && MovedOn(t1, t2, n)
    ensures MovedOn(t, t2, m + n)
  {
    var p := t.interval * MS;
    assert (m + n) * p == m * p + n * p;
  }

  lemma FireMovesOn(s: Timers, call: Call, now: Time, id: Id)
    requires DueAt(s, call.id, now) && id in s.live && id < s.nextId && id in Fire(s, call, now).live
    ensures MovedOn(s.live[id], Fire(s, call, now).live[id], if call.id == id then 1 else 0)
  {
    ActionsCancel(s, call.callback.actions, id);
  }

  lemma FireGives(s: Timers, call: Call, now: Time, id: Id)
    requires id < s.nextId
    ensures id < Fire(s, call, now).nextId
    ensures id !in s.live ==> id !in Fire(s, call, now).live
  {
    ActionsCancel(s, call.callback.actions, id);
  }

  lemma {:induction false} PassMovesOn(s: Timers, now: Time, calls: seq<Call>, s': Timers, id: Id)
    requires Pass(s, now, calls, s') && id in s.live && id < s.nextId && id in s'.live
    ensures id < s'.nextId && MovedOn(s.live[id], s'.live[id], CallsOf(calls, id))
    decreases |calls|
  {
    if calls != [] {
      var s1, rest := Fire(s, calls[0], now), calls[1..];
      FireGives(s, calls[0], now, id);
      if id in s1.live {
        FireMovesOn(s, calls[0], now, id);
        PassMovesOn(s1, now, rest, s', id);
        MovedOnTwice(s.live[id], if calls[0].id == id then 1 else 0, s1.live[id], CallsOf(rest, id), s'.live[id]);
      } else {
        GoneIsNotCalled(s1, now, rest, s', id);
      }
    }
  }

  lemma StepMovesOn(s: Timers, step: Step, s': Timers, id: Id)
    requires StepTo(s, step, s') && id in s.live && id < s.nextId && id in s'.live
    ensures id < s'.nextId
    ensures MovedOn(s.live[id], s'.live[id], if step.Handler? then CallsOf(step.calls, id) else 0)
  {
    if step.Handler? {
      PassMovesOn(s, step.now, step.calls, s', id);
    }
  }

  lemma {:induction false} PassNextId(s: Timers, now: Time, calls: seq<Call>, s': Timers, id: Id)
    requires Pass(s, now, calls, s') && id < s.nextId
    ensures id < s'.nextId
    decreases |calls|
  {
    if calls != [] {
      FireGives(s, calls[0], now, id);
      PassNextId(Fire(s, calls[0], now), now, calls[1..], s', id);
    }
  }

  /** In every run each call of a timer that stays live moves its expiry on by at least
      one interval, however late the callbacks run. */
  lemma {:induction false} NeverTooEarly(s: Timers, steps: seq<Step>, s': Timers, id: Id)
    requires Steps(s, steps, s') && id in s.live && id < s.nextId && id in s'.live
    ensures MovedOn(s.live[id], s'.live[id], CallsIn(steps, id))
    decreases |steps|
  {
    if steps != [] {
      var rest := steps[1..];
      var s1 :| StepTo(s, steps[0], s1) && Steps(s1, rest, s');
      if id in s1.live {
        StepMovesOn(s, steps[0], s1, id);
        NeverTooEarly(s1, rest, s', id);
        MovedOnTwice(s.live[id], if steps[0].Handler? then CallsOf(steps[0].calls, id) else 0,
                     s1.live[id], CallsIn(rest, id), s'.live[id]);
      } else {
        if steps[0].Handler? {
          PassNextId(s, steps[0].now, steps[0].calls, s1, id);
        }
        NeverCalledAgain(s1, rest, s', id);
      }
    }
  }

  /** A timer set up at `start` with delay `ms` and called n times so far is not due again
      before `start` plus n + 1 times `ms`. */
  lemma NthCallOnTime(s: Timers, func: Func, ms: int, repeating: bool, start: Time,
                      steps: seq<Step>, s': Timers, now: Time)
    requires Steps(Do(s, Schedule(func, ms, repeating, start)), steps, s') && DueAt(s', s.nextId, now)
    ensures now >= start + (CallsIn(steps, s.nextId) + 1) * (ms * MS)
  {
    var s0 := Do(s, Schedule(func, ms, repeating, start));
    NeverTooEarly(s0, steps, s', s.nextId);
    var n, p := CallsIn(steps, s.nextId), ms * MS;
    assert (n + 1) * p == n * p + p;
  }

  // ---------------------------------------------------------------------------
  // The life of a timer
  // ---------------------------------------------------------------------------

  lemma {:induction false} NotCalledIsZero(calls: seq<Call>, id: Id)
    requires forall i | 0 <= i < |calls| :: calls[i].id != id
    ensures CallsOf(calls, id) == 0
    decreases |calls|
  {
    if calls != [] {
      assert forall i | 0 <= i < |calls| - 1 :: calls[1..][i] == calls[i + 1];
      NotCalledIsZero(calls[1..], id);
    }
  }

  lemma {:induction false} NotCalledInSteps(steps: seq<Step>, id: Id)
    requires NotCalledFrom(steps, 0, id)
    ensures CallsIn(steps, id) == 0
    decreases |steps|
  {
    if steps != [] {
      if steps[0].Handler? {
        NotCalledIsZero(steps[0].calls, id);
      }
      assert forall k | 0 <= k < |steps| - 1 :: steps[1..][k] == steps[k + 1];
      NotCalledInSteps(steps[1..], id);
    }
  }

  /** Nothing in the step cancels `id`. */
  ghost predicate Spares(step: Step, id: Id) {
    match step
    case Script(a) => a != Cancel(id)
    case Handler(_, calls) => forall i | 0 <= i < |calls| :: !Cancels(calls[i].callback, id)
  }

  /** From `s` to `s'` the timer was called `n` times and not cancelled: a one-shot timer is
      called at most once and lives until then; an interval timer lives on; and nothing but
      a call changes it. */
  ghost predicate LivedThrough(t: Timer, s': Timers, id: Id, n: nat) {
    && (id in s'.live <==> t.repeating || n == 0)
    && (!t.repeating ==> n <= 1)
    && (id in s'.live ==> s'.live[id].repeating == t.repeating)
    && (n == 0 ==> id in s'.live && s'.live[id] == t)
  }

  lemma {:induction false} PassLife(s: Timers, now: Time, calls: seq<Call>, s': Timers, id: Id)
    requires Pass(s, now, calls, s') && IdsBelow(s) && id in s.live
    requires forall i | 0 <= i < |calls| :: !Cancels(calls[i].callback, id)
    ensures IdsBelow(s') && id < s'.nextId && LivedThrough(s.live[id], s', id, CallsOf(calls, id))
    decreases |calls|
  {
    if calls != [] {
      var s1, rest := Fire(s, calls[0], now), calls[1..];
      assert forall i | 0 <= i < |rest| :: rest[i] == calls[i + 1];
      TurnLaw(s, calls[0], now, id);
      if id in s1.live {
        PassLife(s1, now, rest, s', id);
      } else {
        GoneIsNotCalled(s1, now, rest, s', id);
        NotCalledIsZero(rest, id);
        PassKeepsIds(s1, now, rest, s');
      }
    }
  }

  lemma {:induction false} PassKeepsIds(s: Timers, now: Time, calls: seq<Call>, s': Timers)
    requires Pass(s, now, calls, s') && IdsBelow(s)
    ensures IdsBelow(s')
    decreases |calls|
  {
    if calls != [] {
      ActionsKeepIds(s, calls[0].callback.actions);
      PassKeepsIds(Fire(s, calls[0], now), now, calls[1..], s');
    }
  }

  lemma StepLife(s: Timers, step: Step, s': Timers, id: Id)
    requires StepTo(s, step, s') && IdsBelow(s) && id in s.live && Spares(step, id)
    ensures IdsBelow(s') && id < s'.nextId
    ensures LivedThrough(s.live[id], s', id, if step.Handler? then CallsOf(step.calls, id) else 0)
  {
    if step.Handler? {
      PassLife(s, step.now, step.calls, s', id);
    }
  }

  /** The same over every run. */
  lemma {:induction false} TimerLife(s: Timers, steps: seq<Step>, s': Timers, id: Id)
    requires Steps(s, steps, s') && IdsBelow(s) && id in s.live
    requires forall k | 0 <= k < |steps| :: Spares(steps[k], id)
    ensures LivedThrough(s.live[id], s', id, CallsIn(steps, id))
    decreases |steps|
  {
    if steps != [] {
      var rest := steps[1..];
      assert forall k | 0 <= k < |rest| :: rest[k] == steps[k + 1];
      var s1 :| StepTo(s, steps[0], s1) && Steps(s1, rest, s');
      StepLife(s, steps[0], s1, id);
      if id in s1.live {
        TimerLife(s1, rest, s', id);
      } else {
        NeverCalledAgain(s1, rest, s', id);
        NotCalledInSteps(rest, id);
      }
    }
  }

  /** `setTimeout` runs its callback exactly once: unless it is cancelled, it has been
      called once when a clock past its time finds nothing due, and it is gone then. */
  lemma TimeoutRunsOnce(s: Timers, func: Func, ms: int, start: Time, steps: seq<Step>, s': Timers, now: Time)
    requires IdsBelow(s) && Steps(Do(s, Schedule(func, ms, false, start)), steps, s')
    requires forall k | 0 <= k < |steps| :: Spares(steps[k], s.nextId)
    ensures CallsIn(steps, s.nextId) <= 1
    ensures s.nextId in s'.live <==> CallsIn(steps, s.nextId) == 0
    ensures NoneDue(s', now) && start + ms * MS <= now ==> CallsIn(steps, s.nextId) == 1
  {
    TimerLife(Do(s, Schedule(func, ms, false, start)), steps, s', s.nextId);
    assert NoneDue(s', now) ==> !DueAt(s', s.nextId, now);
  }

  lemma {:induction false} PassIsSoon(s: Timers, now: Time, calls: seq<Call>, s': Timers, id: Id, latest: Time)
    requires Pass(s, now, calls, s') && IdsBelow(s) && id in s.live && id in s'.live && now <= latest
    requires s.live[id].expiry <= latest + s.live[id].interval * MS
    ensures s'.live[id].interval == s.live[id].interval
    ensures s'.live[id].expiry <= latest + s.live[id].interval * MS
    decreases |calls|
  {
    if calls != [] {
      var s1, rest := Fire(s, calls[0], now), calls[1..];
      TurnLaw(s, calls[0], now, id);
      if id in s1.live {
        PassIsSoon(s1, now, rest, s', id, latest);
      } else {
        GoneIsNotCalled(s1, now, rest, s', id);
      }
    }
  }

  lemma StepIsSoon(s: Timers, step: Step, s': Timers, id: Id, latest: Time)
    requires StepTo(s, step, s') && IdsBelow(s) && id in s.live && id in s'.live
    requires step.Handler? ==> step.now <= latest
    requires s.live[id].expiry <= latest + s.live[id].interval * MS
    ensures s'.live[id].interval == s.live[id].interval
    ensures s'.live[id].expiry <= latest + s.live[id].interval * MS
  {
    if step.Handler? {
      PassIsSoon(s, step.now, step.calls, s', id, latest);
    }
  }

  lemma StepKeepsIds(s: Timers, step: Step, s': Timers, id: Id)
    requires StepTo(s, step, s') && IdsBelow(s) && id < s.nextId
    ensures IdsBelow(s') && id < s'.nextId
  {
    if step.Handler? {
      PassKeepsIds(s, step.now, step.calls, s');
      PassNextId(s, step.now, step.calls, s', id);
    }
  }

  /** Nor is an interval timer ever put off by more than one interval beyond the latest
      pass. */
  lemma {:induction false} NeverTooLate(s: Timers, steps: seq<Step>, s': Timers, id: Id, latest: Time)
    requires Steps(s, steps, s') && IdsBelow(s) && id in s.live && id in s'.live
    requires forall k | 0 <= k < |steps| && steps[k].Handler? :: steps[k].now <= latest
    requires s.live[id].expiry <= latest + s.live[id].interval * MS
    ensures s'.live[id].expiry <= latest + s.live[id].interval * MS
    decreases |steps|
  {
    if steps != [] {
      var rest := steps[1..];
      assert forall k | 0 <= k < |rest| :: rest[k] == steps[k + 1];
      var s1 :| StepTo(s, steps[0], s1) && Steps(s1, rest, s');
      StepKeepsIds(s, steps[0], s1, id);
      if id in s1.live {
        StepIsSoon(s, steps[0], s1, id, latest);
        NeverTooLate(s1, rest, s', id, latest);
      } else {
        NeverCalledAgain(s1, rest, s', id);
      }
    }
  }

  /** `setInterval` goes on until it is cancelled: when a pass at `latest` has left nothing
      due, the next call is due later than that, and at most one interval later. */
  lemma IntervalGoesOn(s: Timers, func: Func, ms: int, start: Time, steps: seq<Step>, s': Timers, latest: Time)
    requires IdsBelow(s) && Steps(Do(s, Schedule(func, ms, true, start)), steps, s') && start <= latest
    requires forall k | 0 <= k < |steps| :: Spares(steps[k], s.nextId)
    requires forall k | 0 <= k < |steps| && steps[k].Handler? :: steps[k].now <= latest
    ensures s.nextId in s'.live
    ensures NoneDue(s', latest) ==> latest < s'.live[s.nextId].expiry
    ensures s'.live[s.nextId].expiry <= latest + ms * MS
  {
    var s0 := Do(s, Schedule(func, ms, true, start));
    TimerLife(s0, steps, s', s.nextId);
    NeverTooLate(s0, steps, s', s.nextId, latest);
    assert NoneDue(s', latest) ==> !DueAt(s', s.nextId, latest);
  }
}
