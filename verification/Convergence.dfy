/** A failure-free pass reaches the desired state, and the next one has nothing left to write. */
module Convergence {
  import opened Resources
  import opened Reconciler
  import opened ReconcilerSafety
  import opened Wrappers

  function NoFaults(n: nat): seq<Faults> {
    seq(n, i => NO_FAULTS)
  }

  /** Nothing foreign sits at the key of a desired resource. */
  ghost predicate NothingForeign(objects: Objects, res: Resource, uid: string) {
    res.desired.Some? && res.key in objects ==> IsControlledBy(objects[res.key], uid)
  }

  /** Every desired label, with its value; others may be there besides. */
  predicate HasLabels(labels: Labels, desired: Labels) {
    forall key | key in desired :: key in labels && labels[key] == desired[key]
  }

  /** The managed fields of an object, kind by kind, are the desired ones. The other file of the secret
      and the action of a policy are not managed. */
  predicate HasManagedFields(kind: Kind, o: Object, desired: Object)
    requires HasKind(o, kind) && HasKind(desired, kind)
  {
    match kind
    case SecretKind =>
      && "token-secret.yaml" in desired.payload.data && "token-secret.yaml" in o.payload.data
      && o.payload.data["token-secret.yaml"] == desired.payload.data["token-secret.yaml"]
    case EnvoyFilterKind =>
      && o.payload.workloadSelector == desired.payload.workloadSelector
      && o.payload.configPatches == desired.payload.configPatches
    case RequestAuthenticationKind =>
      && o.payload.selector == desired.payload.selector
      && o.payload.jwtRules == desired.payload.jwtRules
    case AuthorizationPolicyKind =>
      && o.payload.matchLabels == desired.payload.matchLabels
      && o.payload.rules == desired.payload.rules
  }

  /** A resource is as desired: present, controlled, with the desired labels and managed fields, or - if
      it is not desired - not among the controlled objects. */
  ghost predicate IsSettled(objects: Objects, res: Resource, uid: string)
    requires WellTyped(objects) && IsResource(res)
  {
    match res.desired
    case Some(desired) =>
      && res.key in objects
      && objects[res.key].controller == Some(uid)
      && HasLabels(objects[res.key].labels, desired.labels)
      && HasManagedFields(res.key.kind, objects[res.key], desired)
    case None => res.key in objects ==> objects[res.key].controller != Some(uid)
  }

  /** The comparison finds nothing to update exactly in an object with the desired labels and fields. */
  lemma NothingToUpdateIff(kind: Kind, current: Object, desired: Object)
    requires HasKind(current, kind) && HasKind(desired, kind)
    ensures !ShouldUpdate(kind, current, desired) <==>
      HasLabels(current.labels, desired.labels) && HasManagedFields(kind, current, desired)
  {}

  lemma StepSettles(objects: Objects, res: Resource, owner: Owner)
    requires WellTyped(objects) && IsResource(res) && NothingForeign(objects, res, owner.uid)
    ensures var result := Step(objects, res, owner, NO_FAULTS);
      && !result.failed
      && WellTyped(result.objects)
      && IsSettled(result.objects, res, owner.uid)
  {
    StepKeepsTypes(objects, res, owner, NO_FAULTS);
    if res.desired.Some? {
      UpdateSettles(res.key.kind, res.desired.value, res.desired.value);
      NothingToUpdateIff(res.key.kind, res.desired.value, res.desired.value);
      if res.key in objects {
        UpdateSettles(res.key.kind, objects[res.key], res.desired.value);
        NothingToUpdateIff(res.key.kind, objects[res.key], res.desired.value);
        var updated := UpdateFields(res.key.kind, objects[res.key], res.desired.value);
        NothingToUpdateIff(res.key.kind, updated, res.desired.value);
      }
    }
  }

  lemma StepLeavesOtherKeys(objects: Objects, res: Resource, owner: Owner, faults: Faults, key: Key)
    requires WellTyped(objects) && IsResource(res) && key != res.key
    ensures Lookup(Step(objects, res, owner, faults).objects, key) == Lookup(objects, key)
  {}

  lemma StepOnSettled(objects: Objects, res: Resource, owner: Owner)
    requires WellTyped(objects) && IsResource(res) && IsSettled(objects, res, owner.uid)
    ensures Step(objects, res, owner, NO_FAULTS)
         == StepResult(objects, if res.desired.Some? then Unchanged else Silent, false, 0)
  {
    if res.desired.Some? {
      NothingToUpdateIff(res.key.kind, objects[res.key], res.desired.value);
    }
  }

  lemma SettledByLookup(a: Objects, b: Objects, res: Resource, uid: string)
    requires WellTyped(a) && WellTyped(b) && IsResource(res)
    requires Lookup(a, res.key) == Lookup(b, res.key)
    ensures IsSettled(a, res, uid) <==> IsSettled(b, res, uid)
    ensures NothingForeign(a, res, uid) <==> NothingForeign(b, res, uid)
  {}

  ghost predicate NothingForeignAtAll(objects: Objects, resources: seq<Resource>, uid: string) {
    forall i | 0 <= i < |resources| :: NothingForeign(objects, resources[i], uid)
  }

  ghost predicate AreSettled(objects: Objects, resources: seq<Resource>, uid: string, n: nat)
    requires WellTyped(objects) && AreResources(resources) && n <= |resources|
  {
    forall i | 0 <= i < n :: IsSettled(objects, resources[i], uid)
  }

  /** From a cluster with nothing foreign at a desired key, a failure-free pass settles every
      resource and reports no error. */
  lemma {:induction false} PassSettles(objects: Objects, resources: seq<Resource>, owner: Owner, n: nat)
    requires WellTyped(objects) && AreResources(resources) && AreDistinct(resources) && n <= |resources|
    requires NothingForeignAtAll(objects, resources, owner.uid)
    ensures var s := Pass(objects, resources, owner, NoFaults(|resources|), n);
      && s.errors == 0
      && NothingForeignAtAll(s.objects, resources[n..], owner.uid)
      && AreSettled(s.objects, resources, owner.uid, n)
  {
    if n > 0 {
      PassSettles(objects, resources, owner, n - 1);
      var before := Pass(objects, resources, owner, NoFaults(|resources|), n - 1).objects;
      var res := resources[n - 1];
      assert resources[n - 1..][0] == res;
      StepSettles(before, res, owner);
      var after := Step(before, res, owner, NO_FAULTS).objects;
      forall i | 0 <= i < |resources| && i != n - 1
        ensures IsSettled(after, resources[i], owner.uid) <==> IsSettled(before, resources[i], owner.uid)
        ensures NothingForeign(after, resources[i], owner.uid) <==> NothingForeign(before, resources[i], owner.uid)
      {
        assert resources[i].key != res.key;
        StepLeavesOtherKeys(before, res, owner, NO_FAULTS, resources[i].key);
        SettledByLookup(before, after, resources[i], owner.uid);
      }
      SettledAfter(before, after, resources, owner.uid, n);
    }
  }

  lemma SettledAfter(before: Objects, after: Objects, resources: seq<Resource>, uid: string, n: nat)
    requires WellTyped(before) && WellTyped(after) && AreResources(resources) && 0 < n <= |resources|
    requires NothingForeignAtAll(before, resources[n - 1..], uid) && AreSettled(before, resources, uid, n - 1)
    requires IsSettled(after, resources[n - 1], uid)
    requires forall i | 0 <= i < |resources| && i != n - 1 ::
      && (IsSettled(after, resources[i], uid) <==> IsSettled(before, resources[i], uid))
      && (NothingForeign(after, resources[i], uid) <==> NothingForeign(before, resources[i], uid))
    ensures NothingForeignAtAll(after, resources[n..], uid) && AreSettled(after, resources, uid, n)
  {
    forall i | 0 <= i < |resources[n..]| ensures NothingForeign(after, resources[n..][i], uid) {
      assert resources[n..][i] == resources[n - 1..][i + 1] == resources[n + i];
    }
  }

  /** What a pass over settled resources records. */
  function QuietDescendants(resources: seq<Resource>, owner: Owner, n: nat): seq<Descendant>
    requires n <= |resources|
  {
    if n == 0 then []
    else
      Recorded(QuietDescendants(resources, owner, n - 1), resources[n - 1].key,
               if resources[n - 1].desired.Some? then Unchanged else Silent, owner)
  }

  /** A failure-free pass over settled resources writes nothing. */
  lemma {:induction false} PassOnSettled(objects: Objects, resources: seq<Resource>, owner: Owner, n: nat)
    requires WellTyped(objects) && AreResources(resources) && n <= |resources|
    requires AreSettled(objects, resources, owner.uid, |resources|)
    ensures Pass(objects, resources, owner, NoFaults(|resources|), n)
         == PassState(objects, QuietDescendants(resources, owner, n), 0, 0)
  {
    if n > 0 {
      PassOnSettled(objects, resources, owner, n - 1);
      StepOnSettled(objects, resources[n - 1], owner);
    }
  }

  // ----- the six resources of a policy

  /** Two wishes that the comparison cannot tell apart. */
  ghost predicate SameWish(a: Resource, b: Resource) {
    && IsResource(a) && IsResource(b)
    && a.key == b.key && (a.desired.Some? <==> b.desired.Some?)
    && (a.desired.Some? ==> forall current: Object | HasKind(current, a.key.kind) ::
          ShouldUpdate(a.key.kind, current, a.desired.value) <==> ShouldUpdate(b.key.kind, current, b.desired.value))
  }

  /** A fresh HMAC secret does not make a difference. */
  lemma FreshHmacIsTheSameWish(inputs: Inputs, name: string, hmac: string, hmac': string)
    ensures forall i | 0 <= i < 6 ::
      SameWish(ControllerResources(inputs, name, hmac)[i], ControllerResources(inputs, name, hmac')[i])
  {
    ControllerResourcesAreDistinct(inputs, name, hmac);
    ControllerResourcesAreDistinct(inputs, name, hmac');
    SecretWish(inputs, name, hmac, hmac');
    var a, b := ControllerResources(inputs, name, hmac), ControllerResources(inputs, name, hmac');
    assert a[1..] == b[1..];
    forall i | 0 <= i < 6 ensures SameWish(a[i], b[i]) {
      if i > 0 { assert a[i] == a[1..][i - 1] == b[1..][i - 1] == b[i]; }
    }
  }

  lemma SecretWish(inputs: Inputs, name: string, hmac: string, hmac': string)
    ensures SameWish(ControllerResources(inputs, name, hmac)[0], ControllerResources(inputs, name, hmac')[0])
  {
    var token := if inputs.autoLogin.Some? then inputs.autoLogin.value.tokenSecret else "";
    var data, data' := map[HMAC_SECRET_FILE := hmac, TOKEN_SECRET_FILE := token],
                       map[HMAC_SECRET_FILE := hmac', TOKEN_SECRET_FILE := token];
    assert data[TOKEN_SECRET_FILE] == data'[TOKEN_SECRET_FILE];
  }

  lemma SettledForTheSameWish(objects: Objects, a: Resource, b: Resource, uid: string)
    requires WellTyped(objects) && SameWish(a, b)
    ensures IsSettled(objects, a, uid) <==> IsSettled(objects, b, uid)
  {
    if a.desired.Some? && a.key in objects {
      NothingToUpdateIff(a.key.kind, objects[a.key], a.desired.value);
      NothingToUpdateIff(b.key.kind, objects[b.key], b.desired.value);
    }
  }

  /** The first `n` resources of a pass over the six resources of a policy. */
  ghost function PassOver(
    objects: Objects, inputs: Inputs, name: string, owner: Owner, hmac: string, faults: seq<Faults>, n: nat):
    (s: PassState)
    requires WellTyped(objects) && n <= 6 == |faults|
    ensures WellTyped(s.objects)
  {
    ControllerResourcesAreDistinct(inputs, name, hmac);
    Pass(objects, ControllerResources(inputs, name, hmac), owner, faults, n)
  }

  ghost function FailureFree(objects: Objects, inputs: Inputs, name: string, owner: Owner, hmac: string): (s: PassState)
    requires WellTyped(objects)
    ensures WellTyped(s.objects)
  {
    PassOver(objects, inputs, name, owner, hmac, NoFaults(6), 6)
  }

  /** One failure-free pass reaches the desired managed fields of all six resources and removes the
      owned ones that are not desired; a second pass with the same inputs, although it generates
      another HMAC secret, writes nothing, so that the stored secret is kept. */
  lemma SecondPassWritesNothing(
    objects: Objects, inputs: Inputs, name: string, owner: Owner, hmac: string, hmac': string)
    requires WellTyped(objects)
    requires NothingForeignAtAll(objects, ControllerResources(inputs, name, hmac), owner.uid)
    ensures var resources, resources' := ControllerResources(inputs, name, hmac), ControllerResources(inputs, name, hmac');
      var first := FailureFree(objects, inputs, name, owner, hmac);
      && AreResources(resources) && AreResources(resources')
      && first.errors == 0
      && AreSettled(first.objects, resources, owner.uid, 6)
      && AreSettled(first.objects, resources', owner.uid, 6)
      && FailureFree(first.objects, inputs, name, owner, hmac')
         == PassState(first.objects, QuietDescendants(resources', owner, 6), 0, 0)
  {
    ControllerResourcesAreDistinct(inputs, name, hmac);
    ControllerResourcesAreDistinct(inputs, name, hmac');
    var resources, resources' := ControllerResources(inputs, name, hmac), ControllerResources(inputs, name, hmac');
    PassSettles(objects, resources, owner, 6);
    var after := FailureFree(objects, inputs, name, owner, hmac).objects;
    FreshHmacIsTheSameWish(inputs, name, hmac, hmac');
    forall i | 0 <= i < 6 ensures IsSettled(after, resources'[i], owner.uid) {
      SettledForTheSameWish(after, resources[i], resources'[i], owner.uid);
    }
    PassOnSettled(after, resources', owner, 6);
  }

  lemma NothingForeignComesUp(before: Objects, after: Objects, resources: seq<Resource>, uid: string)
    requires TouchesOnlyOwn(before, after, uid) && NothingForeignAtAll(before, resources, uid)
    ensures NothingForeignAtAll(after, resources, uid)
  {
    forall i | 0 <= i < |resources| ensures NothingForeign(after, resources[i], uid) {
      var key := resources[i].key;
      assert NothingForeign(before, resources[i], uid);
      if resources[i].desired.Some? && key in after && key in before && after[key] == before[key] {
        assert IsControlledBy(before[key], uid);
      }
    }
  }

  /** After any run of passes, whatever they desired and whatever failed in them, the next failure-free
      pass settles every resource without an error. */
  lemma NextFailureFreePassSettles(
    objects: Objects, passes: seq<PassInput>, owner: Owner, inputs: Inputs, name: string, hmac: string)
    requires WellTyped(objects) && ArePasses(passes)
    requires NothingForeignAtAll(objects, ControllerResources(inputs, name, hmac), owner.uid)
    ensures var resources, after := ControllerResources(inputs, name, hmac), Run(objects, passes, owner);
      var s := FailureFree(after, inputs, name, owner, hmac);
      && NothingForeignAtAll(after, resources, owner.uid)
      && AreResources(resources) && s.errors == 0 && AreSettled(s.objects, resources, owner.uid, 6)
  {
    ControllerResourcesAreDistinct(inputs, name, hmac);
    var resources := ControllerResources(inputs, name, hmac);
    RunTouchesOnlyOwn(objects, passes, owner);
    NothingForeignComesUp(objects, Run(objects, passes, owner), resources, owner.uid);
    PassSettles(Run(objects, passes, owner), resources, owner, 6);
  }

  /** The same resources are asked for. */
  ghost predicate SameShape(a: seq<Resource>, b: seq<Resource>) {
    && |a| == |b|
    && forall i | 0 <= i < |a| :: a[i].key == b[i].key && (a[i].desired.Some? <==> b[i].desired.Some?)
  }

  lemma ShapeIgnoresHmac(inputs: Inputs, name: string, hmac: string, hmac': string)
    ensures SameShape(ControllerResources(inputs, name, hmac), ControllerResources(inputs, name, hmac'))
  {
    FreshHmacIsTheSameWish(inputs, name, hmac, hmac');
    var a, b := ControllerResources(inputs, name, hmac), ControllerResources(inputs, name, hmac');
    forall i | 0 <= i < |a| ensures a[i].key == b[i].key && (a[i].desired.Some? <==> b[i].desired.Some?) {
      assert SameWish(a[i], b[i]);
    }
  }

  /** A quiet pass records what is asked for, whatever it looks like. */
  lemma {:induction false} QuietDescendantsByShape(a: seq<Resource>, b: seq<Resource>, owner: Owner, n: nat)
    requires SameShape(a, b) && n <= |a|
    ensures QuietDescendants(a, owner, n) == QuietDescendants(b, owner, n)
  {
    if n > 0 {
      QuietDescendantsByShape(a, b, owner, n - 1);
    }
  }
}
