/** Transition times over any run of passes, whatever fails in them. */
module StatusHistory {
  import opened Resources
  import opened Reconciler
  import opened Convergence
  import opened Status
  import opened StatusConditions
  import opened StatusRuns

  /** One pass: what it is to do, what fails, when it is, and whether its status gets stored. */
  datatype Event = Event(setup: Setup, hmac: string, faults: seq<Faults>, now: int, stored: bool)

  ghost predicate AreEvents(events: seq<Event>) {
    forall i | 0 <= i < |events| :: |events[i].faults| == 6
  }

  ghost function WorldAfterEvent(w: World, e: Event): (next: World)
    requires WellTyped(w.objects) && |e.faults| == 6
    ensures WellTyped(next.objects)
  {
    var s := PassOver(w.objects, e.setup.inputs, e.setup.name, e.setup.owner, e.hmac, e.faults, 6);
    var resources := ControllerResources(e.setup.inputs, e.setup.name, e.hmac);
    World(s.objects, if e.stored then ConditionsOfPass(e.setup, resources, s, w.conditions, e.now) else w.conditions)
  }

  /** Cluster and stored conditions after the first `k` passes. */
  ghost function WorldAt(w: World, events: seq<Event>, k: nat): (after: World)
    requires WellTyped(w.objects) && AreEvents(events) && k <= |events|
    ensures WellTyped(after.objects)
  {
    if k == 0 then w else WorldAfterEvent(WorldAt(w, events, k - 1), events[k - 1])
  }

  ghost function ConditionsAt(w: World, events: seq<Event>, k: nat): seq<Condition>
    requires WellTyped(w.objects) && AreEvents(events) && k <= |events|
  {
    WorldAt(w, events, k).conditions
  }

  /** Equal but for the time. */
  predicate SaysTheSameAs(a: Condition, b: Condition) {
    a == b.(transition := a.transition)
  }

  predicate Says(conditions: seq<Condition>, condition: Condition) {
    exists c | c in conditions :: SaysTheSameAs(c, condition)
  }

  /** The first pass of the uninterrupted streak of passes, up to the `k`th, after which the stored
      conditions say the same; 0 if they have said so from the start. */
  ghost function StreakStart(w: World, events: seq<Event>, k: nat, condition: Condition): (start: nat)
    requires WellTyped(w.objects) && AreEvents(events) && k <= |events|
    ensures start <= k
  {
    if k == 0 || !Says(ConditionsAt(w, events, k - 1), condition) then k
    else StreakStart(w, events, k - 1, condition)
  }

  lemma {:induction false} StreakIsUninterrupted(w: World, events: seq<Event>, k: nat, condition: Condition, i: nat)
    requires WellTyped(w.objects) && AreEvents(events) && k <= |events|
    ensures StreakStart(w, events, k, condition) <= i < k ==> Says(ConditionsAt(w, events, i), condition)
    ensures i + 1 == StreakStart(w, events, k, condition) ==> !Says(ConditionsAt(w, events, i), condition)
  {
    if k > 0 && Says(ConditionsAt(w, events, k - 1), condition) {
      StreakIsUninterrupted(w, events, k - 1, condition, i);
    }
  }

  lemma {:induction false} PreservedTakesFirst(existing: seq<Condition>, condition: Condition)
    ensures !Says(existing, condition) ==> Preserved(existing, condition) == condition
    ensures Says(existing, condition) ==> exists c | c in existing ::
      SaysTheSameAs(c, condition) && Preserved(existing, condition) == condition.(transition := c.transition)
  {
    if existing != [] {
      assert existing == [existing[0]] + existing[1..];
      assert SaysTheSameAs(existing[0], condition) <==> IsLogicallyEqual(existing[0], condition);
      PreservedTakesFirst(existing[1..], condition);
    }
  }

  lemma {:induction false} MissingIsDatedNow(descendants: seq<Descendant>, resources: seq<Resource>, now: int)
    ensures forall c | c in MissingConditions(descendants, resources, [], now) :: c.transition == now
  {
    if resources != [] {
      MissingIsDatedNow(descendants, resources[..|resources| - 1], now);
    }
  }

  lemma FreshIsDatedNow(
    id: string, state: ReconciliationState, validationMessage: string,
    descendants: seq<Descendant>, resources: seq<Resource>, now: int)
    ensures forall c | c in BuildConditions(id, state, validationMessage, descendants, resources, [], now) ::
      c.transition == now
  {
    MissingIsDatedNow(descendants, resources, now);
  }

  /** A condition has the time of an existing one that says the same, or else the time it was made at. */
  predicate IsDated(existing: seq<Condition>, c: Condition, now: int) {
    if Says(existing, c) then exists e | e in existing :: SaysTheSameAs(e, c) && e.transition == c.transition
    else c.transition == now
  }

  lemma PreservedIsDated(existing: seq<Condition>, condition: Condition, now: int)
    requires condition.transition == now
    ensures IsDated(existing, Preserved(existing, condition), now)
  {
    PreservedTakesFirst(existing, condition);
  }

  lemma ConditionOfPass(
    setup: Setup, resources: seq<Resource>, s: PassState, existing: seq<Condition>, now: int, c: Condition)
    requires c in ConditionsOfPass(setup, resources, s, existing, now)
    ensures IsDated(existing, c, now)
  {
    var state := DetermineReconciliationState(setup.inputs.scope.invalidConfig, s.descendants, resources);
    var fresh_ := BuildConditions(setup.id, state, setup.validationMessage, s.descendants, resources, [], now);
    BuiltIsPreserved(setup.id, state, setup.validationMessage, s.descendants, resources, existing, now);
    FreshIsDatedNow(setup.id, state, setup.validationMessage, s.descendants, resources, now);
    var i :| 0 <= i < |fresh_| && AllPreserved(existing, fresh_)[i] == c;
    assert fresh_[i] in fresh_;
    PreservedIsDated(existing, fresh_[i], now);
  }

  /** What is stored after a pass is dated then or was stored before. */
  lemma ConditionAfterEvent(w: World, e: Event, c: Condition)
    requires WellTyped(w.objects) && |e.faults| == 6 && c in WorldAfterEvent(w, e).conditions
    ensures IsDated(w.conditions, c, e.now)
  {
    if e.stored {
      var s := PassOver(w.objects, e.setup.inputs, e.setup.name, e.setup.owner, e.hmac, e.faults, 6);
      ConditionOfPass(e.setup, ControllerResources(e.setup.inputs, e.setup.name, e.hmac), s, w.conditions, e.now, c);
    } else {
      assert SaysTheSameAs(c, c);
    }
  }

  lemma {:induction false} SameStreak(w: World, events: seq<Event>, k: nat, a: Condition, b: Condition)
    requires WellTyped(w.objects) && AreEvents(events) && k <= |events| && SaysTheSameAs(a, b)
    ensures StreakStart(w, events, k, a) == StreakStart(w, events, k, b)
  {
    if k > 0 {
      assert Says(ConditionsAt(w, events, k - 1), a) <==> Says(ConditionsAt(w, events, k - 1), b);
      SameStreak(w, events, k - 1, a, b);
    }
  }

  ghost predicate IsDatedFrom(w: World, events: seq<Event>, start: nat, c: Condition)
    requires start <= |events|
  {
    if start == 0 then exists e | e in w.conditions :: SaysTheSameAs(e, c) && e.transition == c.transition
    else c.transition == events[start - 1].now
  }

  /** For every run of passes, whatever fails and whatever changes between them: each stored condition
      carries the time of the first pass of its current uninterrupted streak. */
  lemma {:induction false} ConditionsDateFromTheirStreak(w: World, events: seq<Event>, k: nat, c: Condition)
    requires WellTyped(w.objects) && AreEvents(events) && k <= |events|
    requires c in ConditionsAt(w, events, k)
    ensures IsDatedFrom(w, events, StreakStart(w, events, k, c), c)
  {
    if k > 0 {
      ConditionAfterEvent(WorldAt(w, events, k - 1), events[k - 1], c);
      if Says(ConditionsAt(w, events, k - 1), c) {
        var e :| e in ConditionsAt(w, events, k - 1) && SaysTheSameAs(e, c) && e.transition == c.transition;
        ConditionsDateFromTheirStreak(w, events, k - 1, e);
        SameStreak(w, events, k - 1, e, c);
      }
    }
  }
}
