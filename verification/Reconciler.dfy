/** Reconciling one resource, and one pass over all of them, against an API that may fail at every
    call. */
module Reconciler {
  import opened Resources
  import opened Wrappers

  /** The AuthPolicy that is being reconciled. */
  datatype Owner = Owner(uid: string, namespace: string)

  predicate IsControlledBy(o: Object, uid: string) {
    o.controller == Some(uid)
  }

  datatype ReconcileAction = RequiresCreate | RequiresUpdate | RequiresDelete | RequiresNoAction

  /** Which of the API calls for a resource fail in this pass, and whether a failing write has taken
      effect nevertheless. */
  datatype Faults = Faults(get: bool, setOwner: bool, write: bool, lateEffect: bool)
  {
    predicate WriteTakesEffect() {
      !write || lateEffect
    }
  }

  const NO_FAULTS := Faults(false, false, false, false)

  /** What a resource's reconciliation reports: an error, a success, or nothing. */
  datatype Report =
    | GetFailed | Refused | DeleteFailed | SetOwnerFailed | CreateFailed | PatchFailed
    | Created | Updated | Unchanged
    | Silent
  {
    predicate IsError() {
      GetFailed? || Refused? || DeleteFailed? || SetOwnerFailed? || CreateFailed? || PatchFailed?
    }
  }

  // ----- the decision

  /** None stands for the refusal to touch an object the AuthPolicy does not control. */
  function DetermineReconcileAction(
    kind: Kind, current: Option<Object>, desired: Option<Object>, uid: string): Option<ReconcileAction>
    requires current.Some? ==> HasKind(current.value, kind)
    requires desired.Some? ==> HasKind(desired.value, kind)
  {
    if desired.None? then
      if current.Some? && IsControlledBy(current.value, uid) then Some(RequiresDelete) else Some(RequiresNoAction)
    else if current.None? then Some(RequiresCreate)
    else if !IsControlledBy(current.value, uid) then None
    else if ShouldUpdate(kind, current.value, desired.value) then Some(RequiresUpdate)
    else Some(RequiresNoAction)
  }

  // ----- messages

  function FullName(key: Key, owner: Owner): string {
    KindName(key.kind) + " " + owner.namespace + "/" + key.name
  }

  function Message(report: Report, key: Key, owner: Owner): string {
    match report
    case GetFailed => "Unable to get " + FullName(key, owner) + "."
    case Refused =>
      "Failed to reconcile " + FullName(key, owner) + ": cannot update " + owner.namespace + "/" + key.name
      + " as it is not owned by AuthPolicy"
    case DeleteFailed => "Failed to delete " + FullName(key, owner)
    case SetOwnerFailed => "Unable to set AuthPolicy ownerReference on " + FullName(key, owner) + "."
    case CreateFailed => "Unable to create " + FullName(key, owner)
    case PatchFailed => "Unable to patch " + FullName(key, owner)
    case Created => "Successfully created " + FullName(key, owner) + "."
    case Updated => "Successfully updated " + FullName(key, owner) + "."
    case Unchanged => "Successfully reconciled " + FullName(key, owner) + "."
    case Silent => ""
  }

  // ----- one resource

  datatype StepResult = StepResult(objects: Objects, report: Report, failed: bool, writes: nat)

  function Lookup(objects: Objects, key: Key): Option<Object> {
    if key in objects then Some(objects[key]) else None
  }

  /** The effect of reconciling one resource on the cluster, what it reports, whether it returns an
      error, and how many write calls it makes. */
  function Step(objects: Objects, res: Resource, owner: Owner, faults: Faults): StepResult
    requires res.key in objects ==> HasKind(objects[res.key], res.key.kind)
    requires res.desired.Some? ==> HasKind(res.desired.value, res.key.kind)
  {
    var current := Lookup(objects, res.key);
    if faults.get then StepResult(objects, GetFailed, true, 0)
    else match DetermineReconcileAction(res.key.kind, current, res.desired, owner.uid)
      case None => StepResult(objects, Refused, true, 0)
      case Some(RequiresDelete) =>
        var after := if faults.WriteTakesEffect() then objects - {res.key} else objects;
        if faults.write then StepResult(after, DeleteFailed, true, 1) else StepResult(after, Silent, false, 1)
      case Some(RequiresCreate) =>
        if faults.setOwner then StepResult(objects, SetOwnerFailed, true, 0)
        else
          var owned := res.desired.value.(controller := Some(owner.uid));
          var after := if faults.WriteTakesEffect() then objects[res.key := owned] else objects;
          if faults.write then StepResult(after, CreateFailed, true, 1) else StepResult(after, Created, false, 1)
      case Some(RequiresUpdate) =>
        var updated := UpdateFields(res.key.kind, current.value, res.desired.value);
        var after := if faults.WriteTakesEffect() then objects[res.key := updated] else objects;
        if faults.write then StepResult(after, PatchFailed, true, 1) else StepResult(after, Updated, false, 1)
      case Some(RequiresNoAction) =>
        StepResult(objects, if res.desired.Some? then Unchanged else Silent, false, 0)
  }

  // ----- descendants

  datatype Descendant = Descendant(id: string, error: Option<string>, success: Option<string>)

  function GetID(kind: string, name: string): string {
    kind + "-" + name
  }

  function ResourceID(key: Key): string {
    GetID(KindName(key.kind), key.name)
  }

  /** The first descendant with the identifier is overwritten; otherwise one is added. */
  function Replaced(descendants: seq<Descendant>, d: Descendant): seq<Descendant> {
    if descendants == [] then [d]
    else if descendants[0].id == d.id then [d] + descendants[1..]
    else [descendants[0]] + Replaced(descendants[1..], d)
  }

  lemma AppendInTwo<T>(prefix: seq<T>, x: T, rest: seq<T>)
    ensures prefix + ([x] + rest) == prefix + [x] + rest
  {}

  lemma TakeOneMore<T>(s: seq<T>, i: nat)
    requires i < |s|
    ensures s[..i + 1] == s[..i] + [s[i]] && s[i..][0] == s[i] && s[i..][1..] == s[i + 1..]
  {}

  lemma ReplacedStep(descendants: seq<Descendant>, i: nat, d: Descendant)
    requires i < |descendants|
    requires Replaced(descendants, d) == descendants[..i] + Replaced(descendants[i..], d)
    ensures Replaced(descendants, d) ==
      if descendants[i].id == d.id then descendants[..i] + [d] + descendants[i + 1..]
      else descendants[..i + 1] + Replaced(descendants[i + 1..], d)
  {
    TakeOneMore(descendants, i);
    if descendants[i].id == d.id {
      AppendInTwo(descendants[..i], d, descendants[i + 1..]);
    } else {
      AppendInTwo(descendants[..i], descendants[i], Replaced(descendants[i + 1..], d));
    }
  }

  function DescendantOf(key: Key, report: Report, owner: Owner): Option<Descendant> {
    if report.Silent? then None
    else if report.IsError() then Some(Descendant(ResourceID(key), Some(Message(report, key, owner)), None))
    else Some(Descendant(ResourceID(key), None, Some(Message(report, key, owner))))
  }

  function Recorded(descendants: seq<Descendant>, key: Key, report: Report, owner: Owner): seq<Descendant> {
    match DescendantOf(key, report, owner)
    case Some(d) => Replaced(descendants, d)
    case None => descendants
  }

  function Errors(descendants: seq<Descendant>): seq<string> {
    if descendants == [] then []
    else
      var last := descendants[|descendants| - 1];
      Errors(descendants[..|descendants| - 1]) + (if last.error.Some? then [last.error.value] else [])
  }

  /** The part of a scope that a pass fills in. */
  class DescendantLog {
    var descendants: seq<Descendant>

    constructor ()
      ensures descendants == []
    {
      descendants := [];
    }

    method ReplaceDescendant(key: Key, error: Option<string>, success: Option<string>)
      modifies this
      ensures descendants == Replaced(old(descendants), Descendant(ResourceID(key), error, success))
    {
      var d := Descendant(ResourceID(key), error, success);
      for i := 0 to |descendants|
        invariant descendants == old(descendants)
        invariant Replaced(descendants, d) == descendants[..i] + Replaced(descendants[i..], d)
      {
        ReplacedStep(descendants, i, d);
        if descendants[i].id == d.id {
          descendants := descendants[..i] + [d] + descendants[i + 1..];
          return;
        }
      }
      descendants := descendants + [d];
    }

    method GetErrors() returns (errors: seq<string>)
      ensures errors == Errors(descendants)
    {
      errors := [];
      for i := 0 to |descendants|
        invariant errors == Errors(descendants[..i])
      {
        assert descendants[..i + 1][..i] == descendants[..i];
        if descendants[i].error.Some? {
          errors := errors + [descendants[i].error.value];
        }
      }
      assert descendants[..|descendants|] == descendants;
    }
  }

  /** The cluster, reached through calls that may fail, with or without effect. */
  class Cluster {
    var objects: Objects
    ghost var writes: nat

    constructor (initial: Objects)
      ensures objects == initial && writes == 0
    {
      objects, writes := initial, 0;
    }

    method Create(key: Key, o: Object, faults: Faults) returns (ok: bool)
      modifies this
      ensures ok == !faults.write && writes == old(writes) + 1
      ensures objects == if faults.WriteTakesEffect() then old(objects)[key := o] else old(objects)
    {
      writes := writes + 1;
      ok := !faults.write;
      if faults.WriteTakesEffect() {
        objects := objects[key := o];
      }
    }

    method Patch(key: Key, o: Object, faults: Faults) returns (ok: bool)
      requires key in objects
      modifies this
      ensures ok == !faults.write && writes == old(writes) + 1
      ensures objects == if faults.WriteTakesEffect() then old(objects)[key := o] else old(objects)
    {
      writes := writes + 1;
      ok := !faults.write;
      if faults.WriteTakesEffect() {
        objects := objects[key := o];
      }
    }

    method Delete(key: Key, faults: Faults) returns (ok: bool)
      modifies this
      ensures ok == !faults.write && writes == old(writes) + 1
      ensures objects == if faults.WriteTakesEffect() then old(objects) - {key} else old(objects)
    {
      writes := writes + 1;
      ok := !faults.write;
      if faults.WriteTakesEffect() {
        objects := objects - {key};
      }
    }
  }

  /** The object read from the cluster, whose managed fields an update overwrites. */
  class CurrentObject {
    const controller: Option<string>
    const rest: string
    var labels: Labels
    var payload: Payload

    constructor (o: Object)
      ensures Value() == o
    {
      controller, rest, labels, payload := o.controller, o.rest, o.labels, o.payload;
    }

    function Value(): Object
      reads this
    {
      Object(controller, labels, payload, rest)
    }

    method Update(kind: Kind, desired: Object)
      requires HasKind(Value(), kind) && HasKind(desired, kind)
      modifies this
      ensures Value() == UpdateFields(kind, old(Value()), desired)
    {
      match kind {
        case SecretKind =>
          payload := payload.(data := desired.payload.data);
        case EnvoyFilterKind =>
          payload := payload.(workloadSelector := desired.payload.workloadSelector);
          payload := payload.(configPatches := desired.payload.configPatches);
        case RequestAuthenticationKind =>
          payload := payload.(selector := desired.payload.selector);
          payload := payload.(jwtRules := desired.payload.jwtRules);
        case AuthorizationPolicyKind =>
          payload := payload.(matchLabels := desired.payload.matchLabels);
          payload := payload.(rules := desired.payload.rules);
      }
      labels := desired.labels;
    }
  }

  method ReconcileOnDelete(cluster: Cluster, log: DescendantLog, key: Key, owner: Owner, faults: Faults)
    returns (failed: bool)
    modifies cluster, log
    ensures failed == faults.write && cluster.writes == old(cluster.writes) + 1
    ensures cluster.objects == if faults.WriteTakesEffect() then old(cluster.objects) - {key} else old(cluster.objects)
    ensures log.descendants == Recorded(old(log.descendants), key, if failed then DeleteFailed else Silent, owner)
  {
    var ok := cluster.Delete(key, faults);
    if !ok {
      log.ReplaceDescendant(key, Some(Message(DeleteFailed, key, owner)), None);
    }
    failed := !ok;
  }

  method ReconcileOnCreate(
    cluster: Cluster, log: DescendantLog, key: Key, desired: Object, owner: Owner, faults: Faults) returns (failed: bool)
    modifies cluster, log
    ensures failed == (faults.setOwner || faults.write)
    ensures cluster.writes == old(cluster.writes) + (if faults.setOwner then 0 else 1)
    ensures cluster.objects ==
      if !faults.setOwner && faults.WriteTakesEffect()
      then old(cluster.objects)[key := desired.(controller := Some(owner.uid))] else old(cluster.objects)
    ensures
      var report := if faults.setOwner then SetOwnerFailed else if faults.write then CreateFailed else Created;
      log.descendants == Recorded(old(log.descendants), key, report, owner)
  {
    if faults.setOwner {
      log.ReplaceDescendant(key, Some(Message(SetOwnerFailed, key, owner)), None);
      return true;
    }
    var ok := cluster.Create(key, desired.(controller := Some(owner.uid)), faults);
    if !ok {
      log.ReplaceDescendant(key, Some(Message(CreateFailed, key, owner)), None);
      return true;
    }
    log.ReplaceDescendant(key, None, Some(Message(Created, key, owner)));
    failed := false;
  }

  method ReconcileOnUpdate(
    cluster: Cluster, log: DescendantLog, key: Key, current: Object, desired: Object, owner: Owner, faults: Faults)
    returns (failed: bool)
    requires key in cluster.objects && HasKind(current, key.kind) && HasKind(desired, key.kind)
    modifies cluster, log
    ensures failed == faults.write && cluster.writes == old(cluster.writes) + 1
    ensures cluster.objects ==
      if faults.WriteTakesEffect() then old(cluster.objects)[key := UpdateFields(key.kind, current, desired)]
      else old(cluster.objects)
    ensures log.descendants == Recorded(old(log.descendants), key, if failed then PatchFailed else Updated, owner)
  {
    var object_ := new CurrentObject(current);
    object_.Update(key.kind, desired);
    var ok := cluster.Patch(key, object_.Value(), faults);
    if !ok {
      log.ReplaceDescendant(key, Some(Message(PatchFailed, key, owner)), None);
      return true;
    }
    log.ReplaceDescendant(key, None, Some(Message(Updated, key, owner)));
    failed := false;
  }

  method ReconcileControllerResource(
    cluster: Cluster, log: DescendantLog, res: Resource, owner: Owner, faults: Faults) returns (failed: bool)
    requires res.key in cluster.objects ==> HasKind(cluster.objects[res.key], res.key.kind)
    requires res.desired.Some? ==> HasKind(res.desired.value, res.key.kind)
    modifies cluster, log
    ensures var result := Step(old(cluster.objects), res, owner, faults);
      && cluster.objects == result.objects
      && cluster.writes == old(cluster.writes) + result.writes
      && failed == result.failed
      && log.descendants == Recorded(old(log.descendants), res.key, result.report, owner)
  {
    var key := res.key;
    if faults.get {
      log.ReplaceDescendant(key, Some(Message(GetFailed, key, owner)), None);
      return true;
    }
    var current := Lookup(cluster.objects, key);
    var action := DetermineReconcileAction(key.kind, current, res.desired, owner.uid);
    if action.None? {
      log.ReplaceDescendant(key, Some(Message(Refused, key, owner)), None);
      return true;
    }
    match action.value {
      case RequiresDelete => failed := ReconcileOnDelete(cluster, log, key, owner, faults);
      case RequiresCreate => failed := ReconcileOnCreate(cluster, log, key, res.desired.value, owner, faults);
      case RequiresUpdate =>
        failed := ReconcileOnUpdate(cluster, log, key, current.value, res.desired.value, owner, faults);
      case RequiresNoAction =>
        if res.desired.Some? {
          log.ReplaceDescendant(key, None, Some(Message(Unchanged, key, owner)));
        }
        failed := false;
    }
  }

  // ----- one pass

  /** The state of a pass after some of its resources. */
  datatype PassState = PassState(objects: Objects, descendants: seq<Descendant>, errors: nat, writes: nat)

  ghost predicate AreResources(resources: seq<Resource>) {
    forall i | 0 <= i < |resources| :: IsResource(resources[i])
  }

  lemma StepKeepsTypes(objects: Objects, res: Resource, owner: Owner, faults: Faults)
    requires WellTyped(objects) && IsResource(res)
    ensures WellTyped(Step(objects, res, owner, faults).objects)
  {}

  /** The first `n` resources of a pass; a failure does not stop the pass. */
  ghost function Pass(objects: Objects, resources: seq<Resource>, owner: Owner, faults: seq<Faults>, n: nat): (s: PassState)
    requires WellTyped(objects) && AreResources(resources)
    requires n <= |resources| == |faults|
    ensures WellTyped(s.objects)
  {
    if n == 0 then PassState(objects, [], 0, 0)
    else
      var before := Pass(objects, resources, owner, faults, n - 1);
      StepKeepsTypes(before.objects, resources[n - 1], owner, faults[n - 1]);
      var result := Step(before.objects, resources[n - 1], owner, faults[n - 1]);
      PassState(result.objects,
                Recorded(before.descendants, resources[n - 1].key, result.report, owner),
                before.errors + (if result.failed then 1 else 0),
                before.writes + result.writes)
  }

  method DoReconcile(cluster: Cluster, log: DescendantLog, resources: seq<Resource>, owner: Owner, faults: seq<Faults>)
    returns (errors: nat)
    requires WellTyped(cluster.objects) && AreResources(resources) && |resources| == |faults|
    requires log.descendants == []
    modifies cluster, log
    ensures var s := Pass(old(cluster.objects), resources, owner, faults, |resources|);
      && cluster.objects == s.objects
      && cluster.writes == old(cluster.writes) + s.writes
      && log.descendants == s.descendants
      && errors == s.errors
  {
    errors := 0;
    for i := 0 to |resources|
      invariant var s := Pass(old(cluster.objects), resources, owner, faults, i);
        && cluster.objects == s.objects
        && cluster.writes == old(cluster.writes) + s.writes
        && log.descendants == s.descendants
        && errors == s.errors
    {
      var failed := ReconcileControllerResource(cluster, log, resources[i], owner, faults[i]);
      if failed {
        errors := errors + 1;
      }
    }
  }
}
