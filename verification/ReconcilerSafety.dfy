/** What every run of the operator keeps: foreign objects, and the action of each policy. */
module ReconcilerSafety {
  import opened GoStrings
  import opened Istio
  import opened Resources
  import opened Reconciler
  import opened Wrappers
  import Names

  // ----- ownership

  /** From one state to the next, objects not controlled by the owner stay as they are, and whatever
      is new or different is controlled by the owner. */
  ghost predicate TouchesOnlyOwn(before: Objects, after: Objects, uid: string) {
    && (forall key | key in before && before[key].controller != Some(uid) :: key in after && after[key] == before[key])
    && (forall key | key in after && (key !in before || after[key] != before[key]) :: after[key].controller == Some(uid))
  }

  lemma TouchesOnlyOwnIsTransitive(a: Objects, b: Objects, c: Objects, uid: string)
    requires TouchesOnlyOwn(a, b, uid) && TouchesOnlyOwn(b, c, uid)
    ensures TouchesOnlyOwn(a, c, uid)
  {
    forall key | key in c && (key !in a || c[key] != a[key]) ensures IsControlledBy(c[key], uid) {
      if key in b && c[key] == b[key] {
        assert key !in a || b[key] != a[key];
      }
    }
  }

  lemma WritingTouchesOnlyOwn(objects: Objects, key: Key, o: Object, uid: string)
    requires IsControlledBy(o, uid) && (key in objects ==> IsControlledBy(objects[key], uid))
    ensures TouchesOnlyOwn(objects, objects[key := o], uid)
  {}

  lemma RemovingTouchesOnlyOwn(objects: Objects, key: Key, uid: string)
    requires key in objects ==> IsControlledBy(objects[key], uid)
    ensures TouchesOnlyOwn(objects, objects - {key}, uid)
  {}

  lemma StepTouchesOnlyOwn(objects: Objects, res: Resource, owner: Owner, faults: Faults)
    requires WellTyped(objects) && IsResource(res)
    ensures TouchesOnlyOwn(objects, Step(objects, res, owner, faults).objects, owner.uid)
  {
    var current := Lookup(objects, res.key);
    match DetermineReconcileAction(res.key.kind, current, res.desired, owner.uid)
    case Some(RequiresDelete) => RemovingTouchesOnlyOwn(objects, res.key, owner.uid);
    case Some(RequiresCreate) =>
      WritingTouchesOnlyOwn(objects, res.key, res.desired.value.(controller := Some(owner.uid)), owner.uid);
    case Some(RequiresUpdate) =>
      WritingTouchesOnlyOwn(objects, res.key, UpdateFields(res.key.kind, current.value, res.desired.value), owner.uid);
    case _ =>
  }

  lemma PassEndsWithAStep(objects: Objects, resources: seq<Resource>, owner: Owner, faults: seq<Faults>, n: nat)
    requires WellTyped(objects) && AreResources(resources) && 0 < n <= |resources| == |faults|
    ensures var before := Pass(objects, resources, owner, faults, n - 1).objects;
      Pass(objects, resources, owner, faults, n).objects == Step(before, resources[n - 1], owner, faults[n - 1]).objects
  {}

  lemma {:induction false} PassTouchesOnlyOwn(
    objects: Objects, resources: seq<Resource>, owner: Owner, faults: seq<Faults>, n: nat)
    requires WellTyped(objects) && AreResources(resources) && n <= |resources| == |faults|
    ensures TouchesOnlyOwn(objects, Pass(objects, resources, owner, faults, n).objects, owner.uid)
  {
    if n > 0 {
      PassTouchesOnlyOwn(objects, resources, owner, faults, n - 1);
      var before := Pass(objects, resources, owner, faults, n - 1).objects;
      var after := Step(before, resources[n - 1], owner, faults[n - 1]).objects;
      StepTouchesOnlyOwn(before, resources[n - 1], owner, faults[n - 1]);
      TouchesOnlyOwnIsTransitive(objects, before, after, owner.uid);
      PassEndsWithAStep(objects, resources, owner, faults, n);
    }
  }

  /** One pass of a run: its resources and its API failures are arbitrary. */
  datatype PassInput = PassInput(resources: seq<Resource>, faults: seq<Faults>)

  ghost predicate ArePasses(passes: seq<PassInput>) {
    forall i | 0 <= i < |passes| :: AreResources(passes[i].resources) && |passes[i].resources| == |passes[i].faults|
  }

  ghost function Run(objects: Objects, passes: seq<PassInput>, owner: Owner): (after: Objects)
    requires WellTyped(objects) && ArePasses(passes)
    ensures WellTyped(after)
  {
    if passes == [] then objects
    else
      var last := passes[|passes| - 1];
      Pass(Run(objects, passes[..|passes| - 1], owner), last.resources, owner, last.faults, |last.resources|).objects
  }

  /** Over every run of passes, whatever is desired and whatever fails: an object the AuthPolicy does
      not control is never changed or deleted, and every object that is added or changed is
      controlled by it. */
  lemma {:induction false} RunTouchesOnlyOwn(objects: Objects, passes: seq<PassInput>, owner: Owner)
    requires WellTyped(objects) && ArePasses(passes)
    ensures TouchesOnlyOwn(objects, Run(objects, passes, owner), owner.uid)
  {
    if passes != [] {
      var init, last := passes[..|passes| - 1], passes[|passes| - 1];
      RunTouchesOnlyOwn(objects, init, owner);
      var before := Run(objects, init, owner);
      PassTouchesOnlyOwn(before, last.resources, owner, last.faults, |last.resources|);
      TouchesOnlyOwnIsTransitive(objects, before, Run(objects, passes, owner), owner.uid);
    }
  }

  // ----- the action of a policy

  /** The action that a policy name of the operator stands for. */
  function ActionOfName(name: string): Option<Action> {
    if HasSuffix(name, Names.DENY_SUFFIX) then Some(DENY)
    else if HasSuffix(name, Names.IGNORE_SUFFIX) || HasSuffix(name, Names.REQUIRE_SUFFIX) then Some(ALLOW)
    else None
  }

  /** Every controlled policy object has the action of its name. */
  ghost predicate ActionsFollowNames(objects: Objects, uids: set<string>) {
    forall key | key in objects && key.kind == AuthorizationPolicyKind
      && objects[key].controller.Some? && objects[key].controller.value in uids
      && ActionOfName(key.name).Some? ::
      objects[key].payload.AuthorizationPolicySpec? && objects[key].payload.action == ActionOfName(key.name).value
  }

  lemma SuffixOfName(base: string, suffix: string)
    ensures HasSuffix(base + suffix, suffix)
  {
    assert (base + suffix)[|base|..] == suffix;
  }

  lemma AllowSuffixIsNotDeny(base: string, suffix: string)
    requires suffix == Names.IGNORE_SUFFIX || suffix == Names.REQUIRE_SUFFIX
    ensures ActionOfName(base + suffix) == Some(ALLOW)
  {
    var name := base + suffix;
    SuffixOfName(base, suffix);
    assert name[|name| - 1] == 'h';
    LastCharacter(name, 'h');
    SuffixesAgree(name, Names.DENY_SUFFIX, 'h');
  }

  /** The names of the operator stand for the actions that the generators choose. */
  lemma DenyNamesDeny(base: string)
    ensures ActionOfName(Names.DenyPolicy(base)) == Some(DENY)
  {
    SuffixOfName(base, Names.DENY_SUFFIX);
  }

  lemma IgnoreNamesAllow(base: string)
    ensures ActionOfName(Names.IgnorePolicy(base)) == Some(ALLOW)
  {
    AllowSuffixIsNotDeny(base, Names.IGNORE_SUFFIX);
  }

  lemma RequireNamesAllow(base: string)
    ensures ActionOfName(Names.RequirePolicy(base)) == Some(ALLOW)
  {
    AllowSuffixIsNotDeny(base, Names.REQUIRE_SUFFIX);
  }

  /** What is desired under a policy name has the action of the name. */
  ghost predicate DesiredActionFollowsName(res: Resource) {
    res.key.kind == AuthorizationPolicyKind && res.desired.Some? && ActionOfName(res.key.name).Some? ==>
      && res.desired.value.payload.AuthorizationPolicySpec?
      && res.desired.value.payload.action == ActionOfName(res.key.name).value
  }

  lemma ControllerResourcesFollowNames(inputs: Inputs, name: string, hmac: string)
    ensures forall i | 0 <= i < 6 :: DesiredActionFollowsName(ControllerResources(inputs, name, hmac)[i])
  {
    DenyNamesDeny(name);
    IgnoreNamesAllow(name);
    RequireNamesAllow(name);
  }

  lemma StepKeepsActions(objects: Objects, res: Resource, owner: Owner, faults: Faults, uids: set<string>)
    requires WellTyped(objects) && IsResource(res) && DesiredActionFollowsName(res)
    requires ActionsFollowNames(objects, uids) && owner.uid in uids
    ensures ActionsFollowNames(Step(objects, res, owner, faults).objects, uids)
  {}

  lemma {:induction false} PassKeepsActions(
    objects: Objects, resources: seq<Resource>, owner: Owner, faults: seq<Faults>, n: nat, uids: set<string>)
    requires WellTyped(objects) && AreResources(resources) && n <= |resources| == |faults|
    requires forall i | 0 <= i < |resources| :: DesiredActionFollowsName(resources[i])
    requires ActionsFollowNames(objects, uids) && owner.uid in uids
    ensures ActionsFollowNames(Pass(objects, resources, owner, faults, n).objects, uids)
  {
    if n > 0 {
      PassKeepsActions(objects, resources, owner, faults, n - 1, uids);
      var before := Pass(objects, resources, owner, faults, n - 1).objects;
      StepKeepsActions(before, resources[n - 1], owner, faults[n - 1], uids);
    }
  }

  /** A pass of the operator for some AuthPolicy, with arbitrary inputs and failures. */
  datatype OperatorPass = OperatorPass(inputs: Inputs, name: string, owner: Owner, hmac: string, faults: seq<Faults>)

  ghost function OperatorRun(objects: Objects, passes: seq<OperatorPass>): (after: Objects)
    requires WellTyped(objects) && forall i | 0 <= i < |passes| :: |passes[i].faults| == 6
    ensures WellTyped(after)
  {
    if passes == [] then objects
    else
      var last := passes[|passes| - 1];
      ControllerResourcesAreDistinct(last.inputs, last.name, last.hmac);
      Pass(OperatorRun(objects, passes[..|passes| - 1]),
           ControllerResources(last.inputs, last.name, last.hmac), last.owner, last.faults, 6).objects
  }

  /** Over every run for any number of AuthPolicies, every policy object that one of them controls
      keeps the action fixed by its name, although updates neither compare nor set the action. */
  lemma {:induction false} OperatorRunKeepsActions(objects: Objects, passes: seq<OperatorPass>, uids: set<string>)
    requires WellTyped(objects) && forall i | 0 <= i < |passes| :: |passes[i].faults| == 6
    requires forall i | 0 <= i < |passes| :: passes[i].owner.uid in uids
    requires ActionsFollowNames(objects, uids)
    ensures ActionsFollowNames(OperatorRun(objects, passes), uids)
  {
    if passes != [] {
      var init, last := passes[..|passes| - 1], passes[|passes| - 1];
      OperatorRunKeepsActions(objects, init, uids);
      ControllerResourcesAreDistinct(last.inputs, last.name, last.hmac);
      ControllerResourcesFollowNames(last.inputs, last.name, last.hmac);
      PassKeepsActions(OperatorRun(objects, init), ControllerResources(last.inputs, last.name, last.hmac),
                       last.owner, last.faults, 6, uids);
    }
  }
}
