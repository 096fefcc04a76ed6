/** The event loop's timers: a min-heap of (expiry, id) pairs beside a map of entries,
    lazy cancellation, and one armed deadline. */
module TimerLoop {
  import opened TimerSpec

  datatype Option<+T> = None | Some(value: T)

  datatype HeapEntry = HeapEntry(expiry: Time, id: Id)

  datatype TimerEntry = TimerEntry(func: Func, expiry: Time, repeating: bool, intervalMs: int, cancelled: bool)

  type Heap = multiset<HeapEntry>
  type Entries = map<Id, TimerEntry>

  // ---------------------------------------------------------------------------
  // The heap
  // ---------------------------------------------------------------------------

  /** What `top()` may return; among equal expiries the library is free to choose. */
  predicate IsTop(heap: Heap, e: HeapEntry) {
    e in heap && forall x | x in heap :: e.expiry <= x.expiry
  }

  lemma {:induction false} TopExists(heap: Heap, some: HeapEntry)
    requires some in heap
    ensures exists e :: IsTop(heap, e)
    decreases |heap|
  {
    var rest := heap - multiset{some};
    assert forall x | x in heap :: x == some || x in rest;
    if other :| other in rest {
      TopExists(rest, other);
      var e :| IsTop(rest, e);
      assert IsTop(heap, if some.expiry <= e.expiry then some else e);
    } else {
      assert IsTop(heap, some);
    }
  }

  // ---------------------------------------------------------------------------
  // Heap and map
  // ---------------------------------------------------------------------------

  /** Every heap entry occurs once and belongs to a map entry with the same expiry, and
      every live map entry except the one whose callback is running is in the heap. */
  ghost predicate Agree(heap: Heap, entries: Entries, nextId: Id, running: Option<Id>) {
    && nextId >= 1
    && (forall e | e in heap ::
          heap[e] == 1 && e.id in entries && entries[e.id].expiry == e.expiry && running != Some(e.id))
    && (forall id | id in entries ::
          && 1 <= id < nextId
          && (entries[id].cancelled || running == Some(id) || HeapEntry(entries[id].expiry, id) in heap))
  }

  /** The live timers. */
  ghost function LiveOf(entries: Entries): map<Id, Timer> {
    map id | id in entries && !entries[id].cancelled ::
      Timer(entries[id].func, entries[id].expiry, entries[id].repeating, entries[id].intervalMs)
  }

  lemma HeapEntryKnown(heap: Heap, entries: Entries, nextId: Id, running: Option<Id>, e: HeapEntry)
    requires Agree(heap, entries, nextId, running) && e in heap
    ensures e.id in entries && entries[e.id].expiry == e.expiry && heap[e] == 1
  {
  }

  lemma AgreeAfterSchedule(heap: Heap, entries: Entries, nextId: Id, running: Option<Id>, entry: TimerEntry)
    requires Agree(heap, entries, nextId, running) && !entry.cancelled
    requires running.Some? ==> running.value in entries
    ensures nextId >= 1 && nextId !in entries && HeapEntry(entry.expiry, nextId) !in heap
    ensures OnlyCancelled(entries, entries[nextId := entry])
    ensures LiveOf(entries[nextId := entry])
            == LiveOf(entries)[nextId := Timer(entry.func, entry.expiry, entry.repeating, entry.intervalMs)]
    ensures Agree(heap + multiset{HeapEntry(entry.expiry, nextId)}, entries[nextId := entry], nextId + 1, running)
  {
  }

  lemma AgreeAfterCancel(heap: Heap, entries: Entries, nextId: Id, running: Option<Id>, id: Id)
    requires Agree(heap, entries, nextId, running) && id in entries
    ensures Agree(heap, entries[id := entries[id].(cancelled := true)], nextId, running)
    ensures LiveOf(entries[id := entries[id].(cancelled := true)]) == LiveOf(entries) - {id}
  {
  }

  /** Popping the entry of the timer whose turn it is. */
  lemma AgreeAfterPop(heap: Heap, entries: Entries, nextId: Id, top: HeapEntry)
    requires Agree(heap, entries, nextId, None) && top in heap
    ensures Agree(heap - multiset{top}, entries, nextId, Some(top.id))
  {
    forall e | e in heap - multiset{top}
      ensures e != top && e.id != top.id
    {
      assert e in heap;
    }
  }

  lemma AgreeAfterPopCancelled(heap: Heap, entries: Entries, nextId: Id, running: Option<Id>, top: HeapEntry)
    requires Agree(heap, entries, nextId, running) && top in heap
    requires top.id in entries ==> entries[top.id].cancelled
    ensures Agree(heap - multiset{top}, entries, nextId, running)
  {
  }

  lemma AgreeAfterRetire(heap: Heap, entries: Entries, nextId: Id, id: Id)
    requires Agree(heap, entries, nextId, Some(id)) && id in entries
    ensures id >= 1
    ensures Agree(heap, entries - {id}, nextId, None)
    ensures LiveOf(entries - {id}) == LiveOf(entries) - {id}
  {
  }

  lemma AgreeAfterRearm(heap: Heap, entries: Entries, nextId: Id, id: Id, expiry: Time)
    requires Agree(heap, entries, nextId, Some(id)) && id in entries && !entries[id].cancelled
    ensures Agree(heap + multiset{HeapEntry(expiry, id)}, entries[id := entries[id].(expiry := expiry)], nextId, None)
    ensures LiveOf(entries[id := entries[id].(expiry := expiry)])
            == LiveOf(entries)[id := LiveOf(entries)[id].(expiry := expiry)]
  {
  }

  // ---------------------------------------------------------------------------
  // References to callback functions
  // ---------------------------------------------------------------------------

  ghost function Holders(entries: Entries, f: Func): set<nat> {
    set id: nat | id in entries && entries[id].func == f
  }

  /** The engine's count for every function is the number of entries that hold it. */
  ghost predicate RefsMatch(refs: multiset<Func>, entries: Entries) {
    forall f :: refs[f] == |Holders(entries, f)|
  }

  lemma HoldersAdded(entries: Entries, id: Id, entry: TimerEntry, f: Func)
    requires id !in entries && id >= 1
    ensures |Holders(entries[id := entry], f)| == |Holders(entries, f)| + if f == entry.func then 1 else 0
  {
    var before, after := Holders(entries, f), Holders(entries[id := entry], f);
    var k: nat := id;
    assert k !in before;
    if f == entry.func {
      assert after == before + {k};
    } else {
      assert after == before;
    }
  }

  lemma HoldersRemoved(entries: Entries, id: Id, f: Func)
    requires id in entries && id >= 1
    ensures |Holders(entries, f)| == |Holders(entries - {id}, f)| + if f == entries[id].func then 1 else 0
  {
    var before, after := Holders(entries, f), Holders(entries - {id}, f);
    var k: nat := id;
    assert k !in after;
    assert forall x: nat | x != k :: x in before <==> x in after;
    if f == entries[id].func {
      assert before == after + {k};
    } else {
      assert before == after;
    }
  }

  lemma RefsAfterDup(refs: multiset<Func>, entries: Entries, id: Id, entry: TimerEntry)
    requires RefsMatch(refs, entries) && id !in entries && id >= 1
    ensures RefsMatch(refs + multiset{entry.func}, entries[id := entry])
  {
    hide Holders;
    forall f
      ensures (refs + multiset{entry.func})[f] == |Holders(entries[id := entry], f)|
    {
      HoldersAdded(entries, id, entry, f);
    }
  }

  lemma RefsAfterFree(refs: multiset<Func>, entries: Entries, id: Id)
    requires RefsMatch(refs, entries) && id in entries && id >= 1
    ensures entries[id].func in refs
    ensures RefsMatch(refs - multiset{entries[id].func}, entries - {id})
  {
    hide Holders;
    var g := entries[id].func;
    HoldersRemoved(entries, id, g);
    forall f
      ensures (refs - multiset{g})[f] == |Holders(entries - {id}, f)|
    {
      HoldersRemoved(entries, id, f);
    }
  }

  lemma RefsAfterEdit(refs: multiset<Func>, entries: Entries, id: Id, entry: TimerEntry)
    requires RefsMatch(refs, entries) && id in entries && entry.func == entries[id].func
    ensures RefsMatch(refs, entries[id := entry])
  {
    forall f
      ensures refs[f] == |Holders(entries[id := entry], f)|
    {
      assert refs[f] == |Holders(entries, f)|;
      assert Holders(entries[id := entry], f) == Holders(entries, f);
    }
  }

  lemma NoEntriesNoRefs(refs: multiset<Func>, entries: Entries)
    requires RefsMatch(refs, entries) && forall id :: id !in entries
    ensures refs == multiset{}
  {
    forall f
      ensures refs[f] == 0
    {
      assert refs[f] == |Holders(entries, f)|;
      assert Holders(entries, f) == {};
    }
  }

  // ---------------------------------------------------------------------------
  // The context
  // ---------------------------------------------------------------------------

  /** The heap entries that are due. */
  ghost function DueHeap(heap: Heap, now: Time): set<HeapEntry> {
    set e | e in heap && e.expiry <= now
  }

  /** Entries survive, only their cancelled flags may have been set. */
  ghost predicate OnlyCancelled(before: Entries, after: Entries) {
    forall id | id in before :: id in after && after[id] == before[id].(cancelled := after[id].cancelled)
  }

  /** Nothing due at `now` was added to the heap. */
  ghost predicate NothingDueAdded(before: Heap, after: Heap, now: Time) {
    forall e | e in after :: e in before || e.expiry > now
  }

  /** The entry rearms without moving into the future. */
  predicate StaysDue(entry: TimerEntry) {
    entry.repeating && !entry.cancelled && entry.intervalMs < 1
  }

  /** What happens to the context from outside. */
  datatype Event =
    | Main(action: Action)
    | Expires(now: Time, oracle: nat -> Callback)

  /** Repeating timers are given at least a millisecond, and callbacks schedule nothing
      that is due in their own pass already. */
  ghost predicate Fair(event: Event) {
    match event
    case Main(action) => Positive(action)
    case Expires(now, oracle) => AlwaysForward(oracle, now) && forall k: nat :: AllPositive(oracle(k))
  }

  /** `step` is what the service does on `event`: the script's action, or a complete pass
      whose calls do what the event's callbacks do. Whether or not the deadline had been
      reached, no timer is left due. */
  ghost predicate Answers(s: Timers, event: Event, step: Step) {
    match event
    case Main(action) => step == Script(action)
    case Expires(now, oracle) =>
      && step.Handler? && step.now == now
      && Pass(s, now, step.calls, After(s, step)) && NoneDue(After(s, step), now)
      && Obeys(step.calls, oracle) && NoneThrows(step.calls)
  }

  ghost predicate NoneThrows(calls: seq<Call>) {
    forall k | 0 <= k < |calls| :: !calls[k].callback.throws
  }

  /** The k-th step answers the k-th event. */
  ghost predicate Follows(s: Timers, events: seq<Event>, steps: seq<Step>) {
    && |steps| == |events|
    && forall k | 0 <= k < |steps| :: Answers(AfterAll(s, steps[..k]), events[k], steps[k])
  }

  /** The pass of `event` makes `calls` and then `last`, whose callback throws. */
  ghost predicate Throws(s: Timers, event: Event, calls: seq<Call>, last: Call, s': Timers) {
    && event.Expires?
    && var before := FireAll(s, calls, event.now);
    && Pass(s, event.now, calls, before) && MayRun(before, last.id, event.now)
    && Obeys(calls + [last], event.oracle) && NoneThrows(calls) && last.callback.throws
    && s' == DoAll(before, last.callback.actions)
  }

  lemma FollowsAppend(s: Timers, events: seq<Event>, steps: seq<Step>, event: Event, step: Step)
    requires Follows(s, events, steps) && Answers(AfterAll(s, steps), event, step)
    ensures Follows(s, events + [event], steps + [step])
  {
    hide Answers, AfterAll;
    var more := steps + [step];
    assert more[..|steps|] == steps;
    forall k | 0 <= k < |more|
      ensures Answers(AfterAll(s, more[..k]), (events + [event])[k], more[k])
    {
      if k < |steps| {
        assert more[..k] == steps[..k];
      }
    }
  }

  /** What follows the events is a run of the simple service. */
  lemma {:induction false} FollowsIsRun(s: Timers, events: seq<Event>, steps: seq<Step>)
    requires Follows(s, events, steps)
    ensures Steps(s, steps, AfterAll(s, steps))
    decreases |steps|
  {
    if steps != [] {
      var n := |steps| - 1;
      var first := steps[..n];
      assert forall k | 0 <= k < n :: first[..k] == steps[..k];
      assert Answers(AfterAll(s, steps[..n]), events[n], steps[n]);
      FollowsIsRun(s, events[..n], first);
      assert steps == first + [steps[n]];
      AfterAllAppend(s, first, steps[n]);
      StepsAppend(s, first, AfterAll(s, first), steps[n], AfterAll(s, steps));
    }
  }

  /** One more event, from the state that the steps so far lead to. */
  lemma Follow(s: Timers, events: seq<Event>, i: nat, steps: seq<Step>, step: Step)
    requires i < |events| && Follows(s, events[..i], steps)
    requires Answers(AfterAll(s, steps), events[i], step)
    ensures Follows(s, events[..i + 1], steps + [step])
    ensures AfterAll(s, steps + [step]) == After(AfterAll(s, steps), step)
  {
    hide Follows, Answers, AfterAll;
    assert events[..i + 1] == events[..i] + [events[i]];
    FollowsAppend(s, events[..i], steps, events[i], step);
    AfterAllAppend(s, steps, step);
  }

  lemma NoEvents(s: Timers, events: seq<Event>)
    ensures AfterAll(s, []) == s && Follows(s, events[..0], [])
  {
  }

  lemma FairPass(s: Timers, event: Event)
    requires PositiveIntervals(s) && Fair(event) && event.Expires?
    ensures NoneStuck(s, event.now) && AlwaysForward(event.oracle, event.now)
  {
  }

  lemma MainAnswers(s: Timers, event: Event)
    requires PositiveIntervals(s) && Fair(event) && event.Main?
    ensures var step := Script(event.action);
            After(s, step) == Do(s, event.action) && Answers(s, event, step) && PositiveIntervals(After(s, step))
  {
  }

  /** A turn within a fair pass leaves nothing stuck. */
  lemma TurnIsFair(s: Timers, last: Call, now: Time)
    requires IdsBelow(s) && DueAt(s, last.id, now) && Forward(last.callback, now) && NoneStuck(s, now)
    ensures Forward(Callback(last.callback.actions, false), now) && NoneStuck(Fire(s, last, now), now)
    ensures var s' := DoAll(s, last.callback.actions);
            last.id in s'.live && s'.live[last.id].repeating ==> s'.live[last.id].interval >= 1
  {
    ForwardTurn(s, last, now);
    ActionsCancel(s, last.callback.actions, last.id);
    assert !Stuck(s, last.id, now);
  }

  /** The pass of a fair event, as a step. */
  lemma PassAnswers(s: Timers, event: Event, calls: seq<Call>, s': Timers)
    requires event.Expires? && Fair(event) && PositiveIntervals(s)
    requires Pass(s, event.now, calls, s') && NoneDue(s', event.now)
    requires Obeys(calls, event.oracle) && NoneThrows(calls)
    ensures var step := Handler(event.now, calls);
            s' == After(s, step) && Answers(s, event, step) && PositiveIntervals(s')
  {
    PassIsFireAll(s, event.now, calls, s');
    forall k | 0 <= k < |calls|
      ensures AllPositive(calls[k].callback)
    {
      var i: nat := k;
      assert AllPositive(event.oracle(i));
    }
    PassKeepsPositive(s, event.now, calls, s');
  }

  lemma PassThrows(s: Timers, event: Event, calls: seq<Call>, before: Timers, last: Call, s': Timers)
    requires event.Expires? && Pass(s, event.now, calls, before) && MayRun(before, last.id, event.now)
    requires Obeys(calls, event.oracle) && NoneThrows(calls)
    requires last.callback == event.oracle(|calls|) && last.callback.throws
    requires s' == DoAll(before, last.callback.actions)
    ensures Throws(s, event, calls, last, s')
  {
    PassIsFireAll(s, event.now, calls, before);
  }

  class SandboxContext {
    var timerHeap: Heap
    var heapTop: HeapEntry
    var timerEntries: Entries
    var nextTimerId: Id

    /** `next_timer` exists, and the deadline of its pending wait. */
    var hasTimer: bool
    var wait: Option<Time>

    /** The engine's references to callback functions held here. */
    var refs: multiset<Func>

    /** What every method keeps; `running` is the timer whose callback is on the stack. */
    ghost predicate Valid(running: Option<Id>)
      reads this
    {
      && (timerHeap != multiset{} ==> IsTop(timerHeap, heapTop))
      && Agree(timerHeap, timerEntries, nextTimerId, running)
      && RefsMatch(refs, timerEntries)
      && (running.Some? ==> running.value in timerEntries)
    }

    /** The deadline is armed exactly when the heap has an entry, and for its minimum. */
    ghost predicate Quiet()
      reads this
    {
      if timerHeap == multiset{} then !hasTimer && wait == None else hasTimer && wait == Some(heapTop.expiry)
    }

    ghost function State(): Timers
      reads this
    {
      Timers(LiveOf(timerEntries), nextTimerId)
    }

    constructor ()
      ensures Valid(None) && Quiet()
      ensures State() == Timers(map[], 1) && refs == multiset{}
    {
      timerHeap := multiset{};
      heapTop := HeapEntry(0, 0);
      timerEntries := map[];
      nextTimerId := 1;
      hasTimer := false;
      wait := None;
      refs := multiset{};
      new;
      assert forall f :: Holders(map[], f) == {};
    }

    /** Between turns every live timer has its entry in the heap. */
    lemma LiveInHeap()
      requires Valid(None)
      ensures forall id | id in State().live :: HeapEntry(State().live[id].expiry, id) in timerHeap
    {
    }

    /** No live timer expires before the armed deadline. */
    lemma NoLostWakeUp()
      requires Valid(None) && Quiet()
      ensures forall id | id in State().live :: wait.Some? && wait.value <= State().live[id].expiry
      ensures wait.Some? ==> exists e | e in timerHeap :: e.expiry == wait.value
    {
      LiveInHeap();
    }

    /** A clock that has not reached the deadline finds no timer due. */
    lemma NotReached(now: Time)
      requires Valid(None) && Quiet()
      ensures (wait.Some? && wait.value <= now) || NoneDue(State(), now)
    {
      NoLostWakeUp();
    }

    // -------------------------------------------------------------------------
    // The priority queue
    // -------------------------------------------------------------------------

    method HeapPush(e: HeapEntry)
      modifies `timerHeap, `heapTop
      ensures timerHeap == old(timerHeap) + multiset{e} && IsTop(timerHeap, heapTop)
    {
      timerHeap := timerHeap + multiset{e};
      TopExists(timerHeap, e);
      var top :| IsTop(timerHeap, top);
      heapTop := top;
    }

    method HeapPop()
      requires heapTop in timerHeap
      modifies `timerHeap, `heapTop
      ensures timerHeap == old(timerHeap) - multiset{old(heapTop)}
      ensures timerHeap != multiset{} ==> IsTop(timerHeap, heapTop)
    {
      timerHeap := timerHeap - multiset{heapTop};
      if e :| e in timerHeap {
        TopExists(timerHeap, e);
        var top :| IsTop(timerHeap, top);
        heapTop := top;
      }
    }

    method FreeValue(func: Func)
      requires func in refs
      modifies `refs
      ensures refs == old(refs) - multiset{func}
    {
      refs := refs - multiset{func};
    }

    // -------------------------------------------------------------------------
    // The timer interface
    // -------------------------------------------------------------------------

    /** The loop of `armNextTimer`. */
    method DropDeadTops(ghost running: Option<Id>)
      requires Valid(running)
      modifies `timerHeap, `heapTop
      ensures Valid(running)
      ensures timerHeap != multiset{} ==> heapTop.id in timerEntries && !timerEntries[heapTop.id].cancelled
      ensures forall e | e in timerHeap :: e in old(timerHeap)
    {
      hide Agree, RefsMatch;
      while timerHeap != multiset{}
        invariant Valid(running)
        invariant forall e | e in timerHeap :: e in old(timerHeap)
        decreases |timerHeap|
      {
        var top := heapTop;
        if top.id !in timerEntries || timerEntries[top.id].cancelled {
          AgreeAfterPopCancelled(timerHeap, timerEntries, nextTimerId, running, top);
          HeapPop();
        } else {
          break;
        }
      }
    }

    method ArmNextTimer(ghost running: Option<Id>)
      requires Valid(running)
      modifies `timerHeap, `heapTop, `hasTimer, `wait
      ensures Valid(running) && Quiet()
      ensures timerHeap != multiset{} ==> heapTop.id in timerEntries && !timerEntries[heapTop.id].cancelled
      ensures forall e | e in timerHeap :: e in old(timerHeap)
    {
      hide Agree, RefsMatch;
      DropDeadTops(running);
      if timerHeap == multiset{} {
        hasTimer := false;
        wait := None;
        return;
      }
      HeapEntryKnown(timerHeap, timerEntries, nextTimerId, running, heapTop);
      var entry := timerEntries[heapTop.id];
      if !hasTimer {
        hasTimer := true;
      }
      wait := Some(entry.expiry);
    }

    /** The first half of `scheduleTimer`: a new id, an entry and a heap entry. */
    method Enqueue(func: Func, ms: int, repeating: bool, now: Time, ghost running: Option<Id>) returns (id: Id)
      requires Valid(running)
      modifies `timerHeap, `heapTop, `timerEntries, `nextTimerId, `refs
      ensures Valid(running)
      ensures id == old(nextTimerId) && State() == Do(old(State()), Schedule(func, ms, repeating, now))
      ensures refs == old(refs) + multiset{func}
      ensures OnlyCancelled(old(timerEntries), timerEntries)
      ensures timerHeap == old(timerHeap) + multiset{HeapEntry(now + ms * MS, id)}
      ensures HeapEntry(now + ms * MS, id) !in old(timerHeap)
    {
      hide Agree, RefsMatch, LiveOf, OnlyCancelled;
      id := nextTimerId;
      nextTimerId := nextTimerId + 1;
      refs := refs + multiset{func};
      var entry := TimerEntry(func, now + ms * MS, repeating, ms, false);
      AgreeAfterSchedule(timerHeap, timerEntries, id, running, entry);
      RefsAfterDup(old(refs), timerEntries, id, entry);
      timerEntries := timerEntries[id := entry];
      HeapPush(HeapEntry(entry.expiry, id));
    }

    method ScheduleTimer(func: Func, ms: int, repeating: bool, now: Time, ghost running: Option<Id>) returns (id: Id)
      requires Valid(running)
      modifies this
      ensures Valid(running) && (old(Quiet()) ==> Quiet())
      ensures id == old(nextTimerId) && State() == Do(old(State()), Schedule(func, ms, repeating, now))
      ensures refs == old(refs) + multiset{func}
      ensures OnlyCancelled(old(timerEntries), timerEntries)
      ensures forall e | e in timerHeap :: e in old(timerHeap) || e == HeapEntry(now + ms * MS, id)
    {
      hide Agree, RefsMatch, LiveOf, OnlyCancelled, Do;
      id := Enqueue(func, ms, repeating, now, running);
      if heapTop.id == id {
        ArmNextTimer(running);
      } else {
        assert heapTop in old(timerHeap);
      }
    }

    method CancelTimer(id: Id, ghost running: Option<Id>)
      requires Valid(running)
      modifies `timerEntries
      ensures Valid(running)
      ensures State() == Do(old(State()), Cancel(id))
      ensures OnlyCancelled(old(timerEntries), timerEntries) && timerEntries.Keys == old(timerEntries.Keys)
    {
      if id in timerEntries {
        AgreeAfterCancel(timerHeap, timerEntries, nextTimerId, running, id);
        RefsAfterEdit(refs, timerEntries, id, timerEntries[id].(cancelled := true));
        timerEntries := timerEntries[id := timerEntries[id].(cancelled := true)];
      } else {
        assert LiveOf(timerEntries) - {id} == LiveOf(timerEntries);
      }
    }

    // -------------------------------------------------------------------------
    // Callbacks and passes
    // -------------------------------------------------------------------------

    /** `JS_Call`: the callback runs its actions on this very object. */
    method JsCall(actions: seq<Action>, ghost passNow: Time, ghost running: Option<Id>)
      requires Valid(running)
      modifies this
      ensures Valid(running)
      ensures State() == DoAll(old(State()), actions)
      ensures OnlyCancelled(old(timerEntries), timerEntries)
      ensures Forward(Callback(actions, false), passNow) ==> NothingDueAdded(old(timerHeap), timerHeap, passNow)
    {
      hide Agree, RefsMatch, LiveOf;
      var i := 0;
      assert actions[0..] == actions;
      while i < |actions|
        invariant 0 <= i <= |actions|
        invariant Valid(running)
        invariant DoAll(State(), actions[i..]) == DoAll(old(State()), actions)
        invariant OnlyCancelled(old(timerEntries), timerEntries)
        invariant Forward(Callback(actions, false), passNow) ==> NothingDueAdded(old(timerHeap), timerHeap, passNow)
      {
        assert actions[i..][0] == actions[i] && actions[i..][1..] == actions[i + 1..];
        match actions[i]
        case Schedule(func, ms, repeating, now) =>
          assert Callback(actions, false).actions[i] == actions[i];
          var id := ScheduleTimer(func, ms, repeating, now, running);
          i := i + 1;
        case Cancel(id) =>
          CancelTimer(id, running);
          i := i + 1;
      }
    }

    /** Between turns of a pass the top of the heap, if live and due, is a timer that may
        run next. */
    lemma TopMayRun(now: Time)
      requires Valid(None) && timerHeap != multiset{}
      ensures var id := heapTop.id;
              && id in timerEntries && timerEntries[id].expiry == heapTop.expiry
              && (timerEntries[id].cancelled ==> id !in State().live)
              && (!timerEntries[id].cancelled && heapTop.expiry <= now ==> MayRun(State(), id, now))
              && (heapTop.expiry > now ==> NoneDue(State(), now))
    {
      LiveInHeap();
    }

    lemma EmptyHeapNoneDue(now: Time)
      requires Valid(None) && timerHeap == multiset{}
      ensures NoneDue(State(), now)
    {
      LiveInHeap();
    }

    lemma StateKnown(id: Id)
      requires Valid(Some(id))
      ensures IdsBelow(State())
      ensures timerEntries[id].cancelled <==> id !in State().live
      ensures id in State().live ==>
                State().live[id] == Timer(timerEntries[id].func, timerEntries[id].expiry,
                                          timerEntries[id].repeating, timerEntries[id].intervalMs)
    {
    }

    /** Releases and erases the entry whose turn is over, or which was cancelled. */
    method Retire(id: Id)
      requires Valid(Some(id))
      modifies `timerEntries, `refs
      ensures Valid(None)
      ensures State() == old(State()).(live := old(State()).live - {id})
    {
      hide Agree, RefsMatch, LiveOf;
      AgreeAfterRetire(timerHeap, timerEntries, nextTimerId, id);
      RefsAfterFree(refs, timerEntries, id);
      FreeValue(timerEntries[id].func);
      timerEntries := timerEntries - {id};
    }

    /** Takes the due top off the heap; its timer is now the one whose turn it is. */
    method BeginTurn(now: Time)
      requires Valid(None) && timerHeap != multiset{} && heapTop.expiry <= now
      modifies `timerHeap, `heapTop
      ensures Valid(Some(old(heapTop.id)))
      ensures DueHeap(timerHeap, now) < old(DueHeap(timerHeap, now))
    {
      HeapEntryKnown(timerHeap, timerEntries, nextTimerId, None, heapTop);
      AgreeAfterPop(timerHeap, timerEntries, nextTimerId, heapTop);
      hide Agree, RefsMatch;
      assert heapTop in DueHeap(timerHeap, now);
      HeapPop();
      assert old(heapTop) !in timerHeap;
    }

    /** Gives a repeating timer its next expiry and puts it back on the heap. */
    method PutBack(id: Id, expiry: Time)
      requires Valid(Some(id)) && !timerEntries[id].cancelled
      modifies `timerHeap, `heapTop, `timerEntries
      ensures Valid(None)
      ensures id in old(State()).live
      ensures State() == old(State()).(live := old(State()).live[id := old(State()).live[id].(expiry := expiry)])
      ensures timerHeap == old(timerHeap) + multiset{HeapEntry(expiry, id)}
    {
      StateKnown(id);
      hide Agree, RefsMatch, LiveOf;
      AgreeAfterRearm(timerHeap, timerEntries, nextTimerId, id, expiry);
      RefsAfterEdit(refs, timerEntries, id, timerEntries[id].(expiry := expiry));
      timerEntries := timerEntries[id := timerEntries[id].(expiry := expiry)];
      HeapPush(HeapEntry(expiry, id));
    }

    /** What follows a callback that did not throw. */
    method EndTurn(id: Id, now: Time)
      requires Valid(Some(id))
      modifies `timerHeap, `heapTop, `timerEntries, `refs
      ensures Valid(None)
      ensures State() == Finish(old(State()), id, now)
      ensures NothingDueAdded(old(timerHeap), timerHeap, now) || StaysDue(old(timerEntries)[id])
    {
      StateKnown(id);
      hide Agree, RefsMatch, LiveOf, IsTop;
      var entry := timerEntries[id];
      if entry.cancelled {
        assert State().live - {id} == State().live;
        Retire(id);
      } else if entry.repeating {
        var expiry := entry.expiry + entry.intervalMs * MS;
        if expiry <= now {
          expiry := now + entry.intervalMs * MS;
        }
        PutBack(id, expiry);
      } else {
        Retire(id);
      }
    }

    /** `oracle(k)` is what the k-th callback of the pass does. The result is false when a
        callback threw; then `last` is that call and `before` the state it started in. */
    method ProcessExpiredTimers(now: Time, oracle: nat -> Callback)
      returns (ok: bool, ghost calls: seq<Call>, ghost before: Timers, ghost last: Call)
      requires Valid(None) && NoneStuck(State(), now) && AlwaysForward(oracle, now)
      modifies this
      ensures Pass(old(State()), now, calls, before) && Obeys(calls, oracle) && NoneThrows(calls)
      ensures ok ==> Valid(None) && State() == before && NoneDue(before, now)
      ensures !ok ==>
                && Valid(Some(last.id)) && MayRun(before, last.id, now)
                && last.callback == oracle(|calls|) && last.callback.throws
                && State() == DoAll(before, last.callback.actions)
    {
      hide Agree, RefsMatch, LiveOf, NoneStuck, Forward;
      calls, before, last := [], State(), Call(0, IDLE);
      var k := 0;
      while timerHeap != multiset{}
        invariant Valid(None) && NoneStuck(before, now)
        invariant k == |calls| && before == State()
        invariant Pass(old(State()), now, calls, before) && Obeys(calls, oracle) && NoneThrows(calls)
        decreases DueHeap(timerHeap, now)
      {
        var top := heapTop;
        TopMayRun(now);
        // an id without an entry never gets here
        assert top.id in timerEntries;
        if timerEntries[top.id].expiry > now {
          return true, calls, before, last;
        }
        BeginTurn(now);
        if timerEntries[top.id].cancelled {
          assert State().live - {top.id} == State().live;
          Retire(top.id);
          continue;
        }
        var callback := oracle(k);
        last := Call(top.id, callback);
        StateKnown(top.id);
        TurnIsFair(before, last, now);
        JsCall(callback.actions, now, Some(top.id));
        if callback.throws {
          return false, calls, before, last;
        }
        StateKnown(top.id);
        EndTurn(top.id, now);
        PassExtend(old(State()), now, calls, before, last);
        calls, before, k := calls + [last], State(), k + 1;
      }
      EmptyHeapNoneDue(now);
      return true, calls, before, last;
    }

    // -------------------------------------------------------------------------
    // The loop
    // -------------------------------------------------------------------------

    /** The handler of the pending wait: one pass, then the deadline is armed again. An
        exception skips the second part. */
    method HandleWait(now: Time, oracle: nat -> Callback)
      returns (ok: bool, ghost calls: seq<Call>, ghost before: Timers, ghost last: Call)
      requires Valid(None) && Quiet() && NoneStuck(State(), now) && AlwaysForward(oracle, now)
      requires wait.Some? && wait.value <= now
      modifies this
      ensures Pass(old(State()), now, calls, before) && Obeys(calls, oracle) && NoneThrows(calls)
      ensures ok ==> Valid(None) && Quiet() && State() == before && NoneDue(before, now)
      ensures !ok ==>
                && Valid(Some(last.id)) && MayRun(before, last.id, now)
                && last.callback == oracle(|calls|) && last.callback.throws
                && State() == DoAll(before, last.callback.actions)
    {
      hide Agree, RefsMatch, LiveOf;
      wait := None;
      ok, calls, before, last := ProcessExpiredTimers(now, oracle);
      if ok {
        ArmNextTimer(None);
      }
    }

    /** The timer part of the destructor, whatever the loop was doing: every reference is
        given back. */
    method Destroy(ghost running: Option<Id>)
      requires Valid(running)
      modifies this
      ensures refs == multiset{} && timerEntries == map[]
      ensures !hasTimer && wait == None
    {
      hasTimer := false;
      wait := None;
      var rest := timerEntries;
      assert forall id | id in rest :: id >= 1;
      hide RefsMatch;
      var more := true;
      while more
        invariant RefsMatch(refs, rest) && forall id | id in rest :: id >= 1
        invariant !more ==> forall id :: id !in rest
        invariant !hasTimer && wait == None
        decreases |rest|, more
      {
        if id :| id in rest {
          RefsAfterFree(refs, rest, id);
          FreeValue(rest[id].func);
          rest := rest - {id};
        } else {
          more := false;
        }
      }
      timerEntries := map[];
      NoEntriesNoRefs(refs, rest);
    }

    /** A whole run: the script acts between handlers, or the clock is read while a wait is
        pending. The k-th step answers the k-th event, and between events no timer that
        should have run is left. An exception ends the run in the pass of its event. */
    method Run(events: seq<Event>)
      returns (ok: bool, ghost steps: seq<Step>, ghost calls: seq<Call>, ghost last: Call)
      requires Valid(None) && Quiet() && PositiveIntervals(State())
      requires forall i | 0 <= i < |events| :: Fair(events[i])
      modifies this
      ensures |steps| <= |events| && Follows(old(State()), events[..|steps|], steps)
      ensures ok ==> |steps| == |events| && Valid(None) && Quiet() && State() == AfterAll(old(State()), steps)
      ensures !ok ==>
                && |steps| < |events| && Valid(Some(last.id))
                && Throws(AfterAll(old(State()), steps), events[|steps|], calls, last, State())
    {
      hide Agree, RefsMatch, LiveOf, Fair, Answers, Throws, Follows, AfterAll;
      steps, calls, last := [], [], Call(0, IDLE);
      NoEvents(State(), events);
      var i := 0;
      while i < |events|
        invariant 0 <= i <= |events| && |steps| == i
        invariant Valid(None) && Quiet() && PositiveIntervals(State())
        invariant State() == AfterAll(old(State()), steps) && Follows(old(State()), events[..i], steps)
      {
        ghost var s, step := State(), Handler(0, []);
        match events[i] {
          case Main(action) =>
            MainAnswers(s, events[i]);
            Act(action);
            step := Script(action);
          case Expires(now, oracle) =>
            FairPass(s, events[i]);
            if wait.Some? && wait.value <= now {
              ghost var before;
              ok, calls, before, last := HandleWait(now, oracle);
              if !ok {
                PassThrows(s, events[i], calls, before, last, State());
                return;
              }
              PassAnswers(s, events[i], calls, State());
              step := Handler(now, calls);
            } else {
              NotReached(now);
              PassAnswers(s, events[i], [], s);
              step := Handler(now, []);
            }
        }
        Follow(old(State()), events, i, steps, step);
        steps, i := steps + [step], i + 1;
      }
      ok := true;
    }

    /** One action of the main script. */
    method Act(action: Action)
      requires Valid(None)
      modifies this
      ensures Valid(None) && State() == Do(old(State()), action)
      ensures old(Quiet()) ==> Quiet()
    {
      hide Agree, RefsMatch, LiveOf;
      match action
      case Schedule(func, ms, repeating, now) =>
        var id := ScheduleTimer(func, ms, repeating, now, None);
      case Cancel(id) =>
        CancelTimer(id, None);
    }
  }
}
