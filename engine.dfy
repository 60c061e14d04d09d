/**
 * The functions of src/index.ts against the cluster store: get_secret,
 * assert_overridable_target, copy_secret, delete_secret and the watch
 * callback, which filters an event, collects the group of secrets to copy,
 * guards every one of them and then copies or deletes them in order.
 *
 * The program starts the guard calls, the copies and the deletes without
 * awaiting them; these methods follow the evident sequential intent instead:
 * each call completes before the next begins, so a guard rejection stops the
 * event before any write.
 */
module Engine {
  import opened Wrappers
  import opened Text
  import opened Secrets
  import opened Reconcile
  import opened SecretStore

  /** get_secret: the secret in the slot, a failed read counting as none. */
  method GetSecret(store: Store, namespace: string, name: string) returns (r: Option<Secret>)
    ensures r.Some? <==> (namespace, name) in store.slots
    ensures r.Some? ==> r.value == store.slots[(namespace, name)]
  {
    var read := store.Read(namespace, name);
    if read.Ok? {
      r := Some(read.value);
    } else {
      r := None;
    }
  }

  /**
   * assert_overridable_target: passes on an empty target slot or one whose
   * ownership marker names the source namespace, and raises otherwise.
   */
  method AssertOverridableTarget(store: Store, source: string, name: string, target: string) returns (r: Outcome<Error>)
    ensures r.Pass? <==> (target, name) !in store.slots || OwnedBy(store.slots[(target, name)], source)
    ensures r == Guard(Lookup(store.slots, (target, name)), source)
  {
    var occupant := GetSecret(store, target, name);
    if occupant.Some? {
      var marker := Label(occupant.value.metadata.labels, SourceNamespaceLabel);
      if marker.None? || marker.value != source {
        return Fail(NotOverridable);
      }
      return Pass;
    }
    return Pass;
  }

  /**
   * copy_secret: writes the secret with its metadata rewritten into the
   * target slot, replacing an occupant and creating the secret otherwise.
   * The program assigns the rewritten metadata onto the secret object
   * itself; nothing reads that object afterwards, so here it is a new value.
   */
  method CopySecret(store: Store, source: string, secret: Secret, target: string)
    modifies store
    ensures var step := CopyStep(old(store.slots), source, target, secret);
      store.slots == step.slots && store.writes == old(store.writes) + step.writes
  {
    var body := Stamped(secret, source);
    var existing := GetSecret(store, target, body.metadata.name);
    if existing.Some? {
      var done := store.Replace(target, body.metadata.name, body);
      assert done == Pass;
    } else {
      var done := store.Create(target, body);
      assert done == Pass;
    }
  }

  /** delete_secret: removes an occupied slot; an empty one is left alone and is no error. */
  method DeleteSecret(store: Store, namespace: string, name: string)
    modifies store
    ensures var step := DeleteStep(old(store.slots), namespace, name);
      store.slots == step.slots && store.writes == old(store.writes) + step.writes
  {
    var existing := GetSecret(store, namespace, name);
    if existing.Some? {
      var done := store.Delete(namespace, name);
      assert done == Pass;
    }
  }

  /**
   * Collects the secrets to copy: the triggering secret, then each name split
   * from the additional-secrets label, looked up trimmed in the source
   * namespace. A missing secret becomes a placeholder carrying the untrimmed
   * name on a deletion and raises on any other event.
   */
  method ResolveGroup(store: Store, source: string, trigger: Secret, names: seq<string>, kind: EventType)
    returns (r: Result<seq<Secret>, Error>)
    ensures r == Group(store.slots, source, trigger, names, kind)
  {
    var group := [trigger];
    var i := 0;
    while i < |names|
      invariant 0 <= i <= |names|
      invariant Group(store.slots, source, trigger, names, kind)
             == PrependTo(group, ResolveAdditional(store.slots, source, names[i..], kind))
    {
      assert names[i..][0] == names[i] && names[i..][1..] == names[i + 1..];
      var found := GetSecret(store, source, Trim(names[i]));
      ghost var rest := ResolveAdditional(store.slots, source, names[i + 1..], kind);
      assert found == Fetch(store.slots, source, names[i]);
      if found.Some? {
        PrependToAppend(group, found.value, rest);
        group := group + [found.value];
      } else if kind.Deleted? {
        PrependToAppend(group, Placeholder(names[i]), rest);
        group := group + [Placeholder(names[i])];
      } else {
        return Err(NoSuchSecret(names[i]));
      }
      i := i + 1;
    }
    assert names[i..] == [] && group + [] == group;
    return Ok(group);
  }

  /** Runs the ownership guard on every member's target slot, stopping at the first rejection. */
  method GuardGroup(store: Store, source: string, group: seq<Secret>, target: string) returns (r: Outcome<Error>)
    ensures r.Pass? <==> AllOverridable(store.slots, source, target, group)
    ensures r.Fail? ==> r.error == NotOverridable
  {
    for i := 0 to |group|
      invariant forall j :: 0 <= j < i ==> Guard(Lookup(store.slots, KeyOf(target, group[j])), source).Pass?
    {
      var verdict := AssertOverridableTarget(store, source, group[i].metadata.name, target);
      if verdict.Fail? {
        return verdict;
      }
    }
    return Pass;
  }

  /** The ADDED/MODIFIED branch: copy_secret on every member, in order. */
  method CopyGroup(store: Store, source: string, group: seq<Secret>, target: string)
    modifies store
    ensures var t := CopyAll(old(store.slots), source, target, group);
      store.slots == t.slots && store.writes == old(store.writes) + t.writes
  {
    for i := 0 to |group|
      invariant var t := CopyAll(old(store.slots), source, target, group);
        var rest := CopyAll(store.slots, source, target, group[i..]);
        rest.slots == t.slots && store.writes + rest.writes == old(store.writes) + t.writes
    {
      assert group[i..][0] == group[i] && group[i..][1..] == group[i + 1..];
      ghost var step := CopyStep(store.slots, source, target, group[i]);
      ghost var rest := CopyAll(step.slots, source, target, group[i + 1..]);
      assert CopyAll(store.slots, source, target, group[i..]) == Trace(rest.slots, step.writes + rest.writes);
      CopySecret(store, source, group[i], target);
      assert store.writes + rest.writes == old(store.writes) + CopyAll(old(store.slots), source, target, group).writes;
    }
  }

  /** The DELETED branch: delete_secret on every member's name, in order. */
  method DeleteGroup(store: Store, group: seq<Secret>, target: string)
    modifies store
    ensures var t := DeleteAll(old(store.slots), target, group);
      store.slots == t.slots && store.writes == old(store.writes) + t.writes
  {
    for i := 0 to |group|
      invariant var t := DeleteAll(old(store.slots), target, group);
        var rest := DeleteAll(store.slots, target, group[i..]);
        rest.slots == t.slots && store.writes + rest.writes == old(store.writes) + t.writes
    {
      assert group[i..][0] == group[i] && group[i..][1..] == group[i + 1..];
      ghost var step := DeleteStep(store.slots, target, group[i].metadata.name);
      ghost var rest := DeleteAll(step.slots, target, group[i + 1..]);
      assert DeleteAll(store.slots, target, group[i..]) == Trace(rest.slots, step.writes + rest.writes);
      DeleteSecret(store, target, group[i].metadata.name);
      assert store.writes + rest.writes == old(store.writes) + DeleteAll(old(store.slots), target, group).writes;
    }
  }

  /**
   * The watch callback on one event: the store ends as Handle says, having
   * received exactly Handle's writes, and the callback reports as Handle does.
   */
  method HandleEvent(store: Store, source: string, e: Event) returns (report: Report)
    modifies store
    ensures var h := Handle(old(store.slots), source, e);
      store.slots == h.slots && store.writes == old(store.writes) + h.writes && report == h.report
  {
    if e.metadata.None? || e.metadata.value.labels.None? {
      return Ignored;
    }
    var meta := e.metadata.value;
    var target := Label(meta.labels, TargetNamespaceLabel);
    if target.None? {
      return Ignored;
    }
    var names := AdditionalNames(meta.labels.value);
    var resolved := ResolveGroup(store, source, Secret(meta, e.data), names, e.kind);
    if resolved.Err? {
      return Failed(resolved.error);
    }
    var group := resolved.value;
    var verdict := GuardGroup(store, source, group, target.value);
    if verdict.Fail? {
      return Failed(verdict.error);
    }
    match e.kind {
      case Added =>
        CopyGroup(store, source, group, target.value);
      case Modified =>
        CopyGroup(store, source, group, target.value);
      case Deleted =>
        DeleteGroup(store, group, target.value);
      case Unrecognized(kind) =>
        return Failed(UnknownOperation(kind));
    }
    return Applied;
  }
}
