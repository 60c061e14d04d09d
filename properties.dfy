/**
 * What the watch callback guarantees about the cluster across one event and
 * across a repeated event: writes reach only slots the ownership guard
 * admitted, a failed resolution or guard writes nothing, copies fan out in
 * label order and converge, and deletions tolerate missing sources and
 * converge.
 */
module Properties {
  import opened Wrappers
  import opened Text
  import opened Secrets
  import opened Reconcile

  /** The slot a write goes to. */
  function WriteKey(w: Write): Key {
    match w
    case Create(namespace, body) => (namespace, body.metadata.name)
    case Replace(namespace, name, _) => (namespace, name)
    case Delete(namespace, name) => (namespace, name)
  }

  lemma UnionTwice<K, V>(m: map<K, V>, w: map<K, V>)
    ensures m + w + w == m + w
  {
  }

  /** The group an event carries, when its target namespace is set. */
  function EventGroup(slots: Slots, source: string, e: Event): Result<seq<Secret>, Error>
    requires TargetNamespace(e).Some?
  {
    var meta := e.metadata.value;
    Group(slots, source, Secret(meta, e.data), AdditionalNames(meta.labels.value), e.kind)
  }

  /** An applied event is the copy or the deletion of its whole group. */
  lemma AppliedEffect(slots: Slots, source: string, e: Event)
    requires Handle(slots, source, e).report.Applied?
    ensures TargetNamespace(e).Some? && EventGroup(slots, source, e).Ok?
    ensures var target := TargetNamespace(e).value;
      var group := EventGroup(slots, source, e).value;
      var h := Handle(slots, source, e);
      && AllOverridable(slots, source, target, group)
      && (e.kind.Deleted? ==> DeleteAll(slots, target, group) == Trace(h.slots, h.writes))
      && (!e.kind.Deleted? ==> CopyAll(slots, source, target, group) == Trace(h.slots, h.writes))
  {
  }

  /** A target slot of a guarded group lies in the target namespace and passed the guard. */
  lemma TargetGuarded(slots: Slots, source: string, target: string, group: seq<Secret>, k: Key)
    requires AllOverridable(slots, source, target, group)
    requires k in Targets(target, group)
    ensures k.0 == target && Guard(Lookup(slots, k), source) == Pass
  {
    var i :| 0 <= i < |group| && k == KeyOf(target, group[i]);
  }

  /** The slots an applied event changes are target slots of its group. */
  lemma {:induction false} ChangedAreTargets(slots: Slots, source: string, e: Event, k: Key)
    requires Handle(slots, source, e).report.Applied?
    requires Lookup(Handle(slots, source, e).slots, k) != Lookup(slots, k)
    ensures TargetNamespace(e).Some? && EventGroup(slots, source, e).Ok?
    ensures k in Targets(TargetNamespace(e).value, EventGroup(slots, source, e).value)
  {
    AppliedEffect(slots, source, e);
    var target := TargetNamespace(e).value;
    var group := EventGroup(slots, source, e).value;
    if e.kind.Deleted? {
      DeleteAllEffect(slots, target, group);
    } else {
      CopyAllSlots(slots, source, target, group);
      WrittenKeys(source, target, group);
    }
  }

  /** The slots an applied event writes are target slots of its group. */
  lemma {:induction false} WrittenAreTargets(slots: Slots, source: string, e: Event, w: Write)
    requires Handle(slots, source, e).report.Applied?
    requires w in Handle(slots, source, e).writes
    ensures TargetNamespace(e).Some? && EventGroup(slots, source, e).Ok?
    ensures WriteKey(w) in Targets(TargetNamespace(e).value, EventGroup(slots, source, e).value)
  {
    AppliedEffect(slots, source, e);
    var target := TargetNamespace(e).value;
    var group := EventGroup(slots, source, e).value;
    var writes := Handle(slots, source, e).writes;
    if e.kind.Deleted? {
      DeleteAllEffect(slots, target, group);
    } else {
      CopyAllWrites(slots, source, target, group);
      var i :| 0 <= i < |writes| && writes[i] == w;
      assert w == ExpectedCopy(slots, source, target, group, i);
    }
  }

  /**
   * The ownership invariant: every slot an event changes, and every slot it
   * writes, lies in the event's target namespace and was empty or owned by
   * the source namespace before the event.
   */
  lemma {:induction false} OwnershipInvariant(slots: Slots, source: string, e: Event)
    ensures var h := Handle(slots, source, e);
      && (forall k :: Lookup(h.slots, k) != Lookup(slots, k) ==>
            TargetNamespace(e).Some? && k.0 == TargetNamespace(e).value && Guard(Lookup(slots, k), source) == Pass)
      && (forall w :: w in h.writes ==>
            TargetNamespace(e).Some? && WriteKey(w).0 == TargetNamespace(e).value
            && Guard(Lookup(slots, WriteKey(w)), source) == Pass)
  {
    var h := Handle(slots, source, e);
    if h.report.Applied? {
      AppliedEffect(slots, source, e);
      var target := TargetNamespace(e).value;
      var group := EventGroup(slots, source, e).value;
      forall k | Lookup(h.slots, k) != Lookup(slots, k)
        ensures k.0 == target && Guard(Lookup(slots, k), source) == Pass
      {
        ChangedAreTargets(slots, source, e, k);
        TargetGuarded(slots, source, target, group, k);
      }
      forall w | w in h.writes
        ensures WriteKey(w).0 == target && Guard(Lookup(slots, WriteKey(w)), source) == Pass
      {
        WrittenAreTargets(slots, source, e, w);
        TargetGuarded(slots, source, target, group, WriteKey(w));
      }
    }
  }

  /** On an ADDED or MODIFIED event, the first additional name with no source secret fails the event before any write. */
  lemma {:induction false} MissingDependencyWritesNothing(slots: Slots, source: string, e: Event, k: int)
    requires e.kind.Added? || e.kind.Modified?
    requires TargetNamespace(e).Some?
    requires FirstMissing(slots, source, AdditionalNames(e.metadata.value.labels.value), k)
    ensures Handle(slots, source, e) == Effect(slots, [], Failed(NoSuchSecret(AdditionalNames(e.metadata.value.labels.value)[k])))
  {
    ResolveFailsAtFirstMissing(slots, source, AdditionalNames(e.metadata.value.labels.value), e.kind, k);
  }

  /**
   * Fan-out of a copy event: the group is the triggering secret followed by
   * one member per additional name, in label order; when the event is
   * applied, member i receives the i-th write, carrying its stamped copy.
   */
  lemma {:induction false} CopyEventFanOut(slots: Slots, source: string, e: Event)
    requires e.kind.Added? || e.kind.Modified?
    requires TargetNamespace(e).Some?
    ensures var meta := e.metadata.value;
      var names := AdditionalNames(meta.labels.value);
      var group := Group(slots, source, Secret(meta, e.data), names, e.kind);
      var h := Handle(slots, source, e);
      && (group.Ok? <==> forall i :: 0 <= i < |names| ==> Fetch(slots, source, names[i]).Some?)
      && (group.Ok? ==>
            |group.value| == |names| + 1 && group.value[0] == Secret(meta, e.data)
            && forall i :: 0 <= i < |names| ==> group.value[i + 1] == Resolved(slots, source, names[i]))
      && (h.report.Applied? ==>
            |h.writes| == |group.value|
            && forall i :: 0 <= i < |group.value| ==>
                 h.writes[i] == ExpectedCopy(slots, source, TargetNamespace(e).value, group.value, i))
  {
    var meta := e.metadata.value;
    var names := AdditionalNames(meta.labels.value);
    ResolvedMembers(slots, source, names, e.kind);
    var group := Group(slots, source, Secret(meta, e.data), names, e.kind);
    if group.Ok? {
      CopyAllWrites(slots, source, TargetNamespace(e).value, group.value);
    }
  }

  /**
   * A deletion tolerates missing sources: resolution cannot fail, the group
   * holds one member per additional name (a placeholder where the source is
   * gone), and once every member passes the guard the event is applied and
   * every member's target slot is empty afterwards.
   */
  lemma {:induction false} DeleteEventClearsGroup(slots: Slots, source: string, e: Event)
    requires e.kind.Deleted?
    requires TargetNamespace(e).Some?
    ensures var meta := e.metadata.value;
      var target := TargetNamespace(e).value;
      var names := AdditionalNames(meta.labels.value);
      var group := Group(slots, source, Secret(meta, e.data), names, e.kind);
      var h := Handle(slots, source, e);
      && group.Ok?
      && |group.value| == |names| + 1
      && (forall i :: 0 <= i < |names| ==> group.value[i + 1] == Resolved(slots, source, names[i]))
      && (h.report.Applied? <==> AllOverridable(slots, source, target, group.value))
      && (h.report.Applied? ==> forall i :: 0 <= i < |group.value| ==> KeyOf(target, group.value[i]) !in h.slots)
  {
    var meta := e.metadata.value;
    var names := AdditionalNames(meta.labels.value);
    ResolvedMembers(slots, source, names, e.kind);
    var group := Group(slots, source, Secret(meta, e.data), names, e.kind);
    DeleteAllEffect(slots, TargetNamespace(e).value, group.value);
  }

  /** Resolution reads only the source namespace. */
  lemma {:induction false} ResolveReadsSource(slots: Slots, other: Slots, source: string, rawNames: seq<string>, kind: EventType)
    requires forall name :: Lookup(slots, (source, name)) == Lookup(other, (source, name))
    ensures ResolveAdditional(slots, source, rawNames, kind) == ResolveAdditional(other, source, rawNames, kind)
    decreases |rawNames|
  {
    if rawNames != [] {
      assert Fetch(slots, source, rawNames[0]) == Fetch(other, source, rawNames[0]);
      ResolveReadsSource(slots, other, source, rawNames[1..], kind);
    }
  }

  /** Writes confined to another namespace leave every source slot as it was. */
  lemma SourceUntouched(slots: Slots, other: Slots, source: string, target: string, touched: set<Key>)
    requires target != source
    requires forall k :: k in touched ==> k.0 == target
    requires forall k :: k !in touched ==> Lookup(slots, k) == Lookup(other, k)
    ensures forall name :: Lookup(slots, (source, name)) == Lookup(other, (source, name))
  {
    forall name ensures Lookup(slots, (source, name)) == Lookup(other, (source, name)) {
      assert (source, name) !in touched;
    }
  }

  /**
   * Copying a group a second time: every target slot now carries the
   * source's marker, so the guard passes; every write is a replace; and the
   * cluster is left as the first copy left it.
   */
  lemma {:induction false} CopyTwice(slots: Slots, source: string, target: string, group: seq<Secret>)
    requires source != ""
    ensures var once := CopyAll(slots, source, target, group).slots;
      var twice := CopyAll(once, source, target, group);
      && AllOverridable(once, source, target, group)
      && twice.slots == once
      && forall i :: 0 <= i < |twice.writes| ==> twice.writes[i].Replace?
  {
    var w := Written(source, target, group);
    CopyAllSlots(slots, source, target, group);
    var once := slots + w;
    WrittenKeys(source, target, group);
    WrittenOwned(source, target, group);
    forall i | 0 <= i < |group| ensures Guard(Lookup(once, KeyOf(target, group[i])), source).Pass? {
      var key := KeyOf(target, group[i]);
      assert key in w;
      assert once[key] == w[key];
    }
    CopyAllSlots(once, source, target, group);
    UnionTwice(slots, w);
    CopyAllWrites(once, source, target, group);
    forall i | 0 <= i < |group| ensures KeyOf(target, group[i]) in once {
      assert KeyOf(target, group[i]) in w;
    }
  }

  /** An applied event's writes leave the source namespace alone, so the event resolves the same group again. */
  lemma {:induction false} SameGroupAfter(slots: Slots, source: string, e: Event, after: Slots, touched: set<Key>)
    requires TargetNamespace(e).Some? && TargetNamespace(e).value != source
    requires forall k :: k in touched ==> k.0 == TargetNamespace(e).value
    requires forall k :: k !in touched ==> Lookup(slots, k) == Lookup(after, k)
    ensures EventGroup(after, source, e) == EventGroup(slots, source, e)
  {
    SourceUntouched(slots, after, source, TargetNamespace(e).value, touched);
    ResolveReadsSource(slots, after, source, AdditionalNames(e.metadata.value.labels.value), e.kind);
  }

  /**
   * Handling the same ADDED or MODIFIED event a second time (a watch that
   * delivers it again) leaves the cluster as one run left it, reports the
   * same, and the repeat writes only replaces: the upsert converges. The
   * source namespace must be set and differ from the target namespace.
   */
  lemma {:induction false} CopyEventIdempotent(slots: Slots, source: string, e: Event)
    requires e.kind.Added? || e.kind.Modified?
    requires source != ""
    requires TargetNamespace(e).Some? ==> TargetNamespace(e).value != source
    ensures var once := Handle(slots, source, e);
      var twice := Handle(once.slots, source, e);
      && twice.slots == once.slots
      && twice.report == once.report
      && (once.report.Applied? ==> forall i :: 0 <= i < |twice.writes| ==> twice.writes[i].Replace?)
  {
    var once := Handle(slots, source, e);
    if once.report.Applied? {
      AppliedEffect(slots, source, e);
      var target := TargetNamespace(e).value;
      var group := EventGroup(slots, source, e).value;
      CopyAllSlots(slots, source, target, group);
      WrittenKeys(source, target, group);
      SameGroupAfter(slots, source, e, once.slots, Written(source, target, group).Keys);
      CopyTwice(slots, source, target, group);
    }
  }

  /**
   * Repeating a DELETED event leaves the cluster as one run left it; when the
   * first run was applied, the repeat is applied too and writes nothing:
   * deleting an absent secret is a no-op, not an error.
   */
  lemma {:induction false} DeleteEventIdempotent(slots: Slots, source: string, e: Event)
    requires e.kind.Deleted?
    requires TargetNamespace(e).Some? ==> TargetNamespace(e).value != source
    ensures var once := Handle(slots, source, e);
      var twice := Handle(once.slots, source, e);
      && twice.slots == once.slots
      && (once.report.Applied? ==> twice.report.Applied? && twice.writes == [])
  {
    var once := Handle(slots, source, e);
    if once.report.Applied? {
      AppliedEffect(slots, source, e);
      var target := TargetNamespace(e).value;
      var group := EventGroup(slots, source, e).value;
      DeleteAgain(slots, source, target, group);
      DeleteAllEffect(slots, target, group);
      SameGroupAfter(slots, source, e, once.slots, Targets(target, group));
    }
  }

  /**
   * Deleting a group a second time finds every target slot empty: the guard
   * passes and nothing is written or changed.
   */
  lemma {:induction false} DeleteAgain(slots: Slots, source: string, target: string, group: seq<Secret>)
    ensures var once := DeleteAll(slots, target, group).slots;
      && (forall k :: k in Targets(target, group) ==> k.0 == target)
      && AllOverridable(once, source, target, group)
      && DeleteAll(once, target, group) == Trace(once, [])
  {
    var targets := Targets(target, group);
    DeleteAllEffect(slots, target, group);
    var once := slots - targets;
    forall k | k in targets ensures k.0 == target {
      var i :| 0 <= i < |group| && k == KeyOf(target, group[i]);
    }
    forall i | 0 <= i < |group| ensures Guard(Lookup(once, KeyOf(target, group[i])), source).Pass? {
      assert KeyOf(target, group[i]) in targets;
    }
    DeleteAllEffect(once, target, group);
    assert once.Keys * targets == {};
    assert once - targets == once;
  }


  /**
   * A consequence of the untrimmed placeholder: when the additional-secrets
   * label lists a name with surrounding whitespace (" b") whose source secret
   * (b) is already gone, the deletion targets the slot of the untrimmed name.
   * The trigger's own copy is deleted, but the copy of b in the target
   * namespace survives.
   */
  lemma {:induction false} UntrimmedPlaceholderLeavesCopy(slots: Slots, source: string, e: Event, raw: string)
    requires e.kind.Deleted? && TargetNamespace(e).Some?
    requires AdditionalNames(e.metadata.value.labels.value) == [raw]
    requires Trim(raw) != raw
    requires (source, Trim(raw)) !in slots
    requires var target := TargetNamespace(e).value;
      var name := e.metadata.value.name;
      && Guard(Lookup(slots, (target, name)), source) == Pass
      && (target, raw) !in slots
      && (target, Trim(raw)) in slots && Trim(raw) != name
    ensures EventGroup(slots, source, e) == Ok([Secret(e.metadata.value, e.data), Placeholder(raw)])
    ensures var h := Handle(slots, source, e);
      && h.report.Applied?
      && h.slots == slots - {(TargetNamespace(e).value, e.metadata.value.name)}
      && (TargetNamespace(e).value, Trim(raw)) in h.slots
  {
    var target := TargetNamespace(e).value;
    var name := e.metadata.value.name;
    PlaceholderGroup(slots, source, e, raw);
    var group := [Secret(e.metadata.value, e.data), Placeholder(raw)];
    assert KeyOf(target, group[0]) == (target, name);
    assert KeyOf(target, group[1]) !in slots;
    assert AllOverridable(slots, source, target, group);
    var step := DeleteStep(slots, target, name);
    assert step.slots == slots - {(target, name)};
    assert group[1..] == [Placeholder(raw)] && group[1..][1..] == [];
    assert DeleteAll(step.slots, target, group[1..]).slots == step.slots;
    assert DeleteAll(slots, target, group).slots == slots - {(target, name)};
  }

  /** The group of such a deletion: the trigger and the placeholder under the untrimmed name. */
  lemma PlaceholderGroup(slots: Slots, source: string, e: Event, raw: string)
    requires e.kind.Deleted? && TargetNamespace(e).Some?
    requires AdditionalNames(e.metadata.value.labels.value) == [raw]
    requires (source, Trim(raw)) !in slots
    ensures EventGroup(slots, source, e) == Ok([Secret(e.metadata.value, e.data), Placeholder(raw)])
  {
    var names := [raw];
    assert Fetch(slots, source, raw) == None;
    assert names[0] == raw && names[1..] == [];
    assert ResolveAdditional(slots, source, names[1..], Deleted) == Ok([]);
    assert Resolved(slots, source, names[0]) == Placeholder(raw);
    assert [Placeholder(raw)] + [] == [Placeholder(raw)];
    assert ResolveAdditional(slots, source, names, Deleted) == Ok([Placeholder(raw)]);
    assert [Secret(e.metadata.value, e.data)] + [Placeholder(raw)] == [Secret(e.metadata.value, e.data), Placeholder(raw)];
  }

  /** The example behind the scenario below: " b" splits to itself and trims to "b". */
  lemma SpaceBSplitsAndTrims()
    ensures Split(" b", ',') == [" b"]
    ensures Trim(" b") == "b"
  {
    assert " b" == [' ', 'b'];
    assert ',' !in " b";
    var s: string := [' ', 'b'];
    assert IsWhitespace(s[0]) && !IsWhitespace('b');
    assert s[1..] == ['b'];
    assert TrimStart(['b']) == ['b'];
    assert TrimStart(s) == ['b'];
    assert TrimEnd(['b']) == ['b'];
  }

  /**
   * The scenario above on a concrete cluster: secret a lists " b" as its
   * additional secret, b is gone from the source namespace, and the copies
   * of a and b are still in the target namespace. Deleting a removes the
   * copy of a only; the copy of b survives.
   */
  lemma UntrimmedPlaceholderScenario()
    ensures var labels := map[TargetNamespaceLabel := "tgt", AdditionalSecretsLabel := " b"];
      var e := Event(Deleted, Some(Meta("a", Some("src"), Some(labels), None)), map[]);
      var copy := Secret(Meta("b", None, Some(map[SourceNamespaceLabel := "src"]), None), map["key" := "value"]);
      var own := Secret(Meta("a", None, Some(map[SourceNamespaceLabel := "src"]), None), map[]);
      var slots := map[("tgt", "b") := copy, ("tgt", "a") := own];
      && Handle(slots, "src", e).report.Applied?
      && Handle(slots, "src", e).slots == map[("tgt", "b") := copy]
  {
    var labels := map[TargetNamespaceLabel := "tgt", AdditionalSecretsLabel := " b"];
    var e := Event(Deleted, Some(Meta("a", Some("src"), Some(labels), None)), map[]);
    var copy := Secret(Meta("b", None, Some(map[SourceNamespaceLabel := "src"]), None), map["key" := "value"]);
    var own := Secret(Meta("a", None, Some(map[SourceNamespaceLabel := "src"]), None), map[]);
    var slots := map[("tgt", "b") := copy, ("tgt", "a") := own];
    SpaceBSplitsAndTrims();
    assert TargetNamespaceLabel != AdditionalSecretsLabel;
    assert labels[AdditionalSecretsLabel] == " b";
    assert Label(Some(labels), AdditionalSecretsLabel) == Some(" b");
    assert AdditionalNames(labels) == [" b"];
    assert TargetNamespace(e) == Some("tgt");
    assert Trim(" b") != " b";
    assert Guard(Lookup(slots, ("tgt", "a")), "src") == Pass;
    UntrimmedPlaceholderLeavesCopy(slots, "src", e, " b");
    assert slots - {("tgt", "a")} == map[("tgt", "b") := copy];
  }

  /**
   * The watch callback as written: the guard calls are started without
   * `await`, so a rejection never reaches the `try` and cannot stop the
   * copies or deletes that follow. This is the schedule in which every write
   * the loops start lands; apart from the guard it is Handle.
   */
  function UnguardedHandle(slots: Slots, source: string, e: Event): (r: Effect)
    ensures Handle(slots, source, e).report.Applied? ==> r == Handle(slots, source, e)
    ensures TargetNamespace(e).Some? && EventGroup(slots, source, e).Ok? && (e.kind.Added? || e.kind.Modified?)
      ==> var t := CopyAll(slots, source, TargetNamespace(e).value, EventGroup(slots, source, e).value);
          r.report.Applied? && r.slots == t.slots && r.writes == t.writes
    ensures TargetNamespace(e).Some? && EventGroup(slots, source, e).Ok? && e.kind.Deleted?
      ==> var t := DeleteAll(slots, TargetNamespace(e).value, EventGroup(slots, source, e).value);
          r.report.Applied? && r.slots == t.slots && r.writes == t.writes
    ensures TargetNamespace(e).Some? && EventGroup(slots, source, e).Ok?
      && !AllOverridable(slots, source, TargetNamespace(e).value, EventGroup(slots, source, e).value)
      ==> Handle(slots, source, e) == Effect(slots, [], Failed(NotOverridable))
  {
    match TargetNamespace(e)
    case None => Effect(slots, [], Ignored)
    case Some(target) =>
      match EventGroup(slots, source, e)
      case Err(err) => Effect(slots, [], Failed(err))
      case Ok(group) =>
        match e.kind
        case Added =>
          var t := CopyAll(slots, source, target, group);
          Effect(t.slots, t.writes, Applied)
        case Modified =>
          var t := CopyAll(slots, source, target, group);
          Effect(t.slots, t.writes, Applied)
        case Deleted =>
          var t := DeleteAll(slots, target, group);
          Effect(t.slots, t.writes, Applied)
        case Unrecognized(kind) => Effect(slots, [], Failed(UnknownOperation(kind)))
  }

  /** The secret cfg of namespace src, routed to dst, and the event that carries it. */
  function CfgEvent(kind: EventType): Event {
    Event(kind, Some(Meta("cfg", Some("src"), Some(map[TargetNamespaceLabel := "dst"]), None)), map["key" := "value"])
  }

  /** cfg lists no additional secrets, so its group is cfg alone, whatever the cluster. */
  lemma CfgGroup(slots: Slots, kind: EventType)
    ensures TargetNamespace(CfgEvent(kind)) == Some("dst")
    ensures EventGroup(slots, "src", CfgEvent(kind)) == Ok([Secret(CfgEvent(kind).metadata.value, CfgEvent(kind).data)])
  {
    var e := CfgEvent(kind);
    var trigger := Secret(e.metadata.value, e.data);
    assert AdditionalNames(e.metadata.value.labels.value) == [];
    assert ResolveAdditional(slots, "src", [], kind) == Ok([]);
    assert [trigger] + [] == [trigger];
  }

  /**
   * The replicator's basic round: an ADDED cfg into an empty dst creates the
   * stamped copy; a MODIFIED cfg afterwards replaces it; and a cfg of
   * someone else's, without the marker, already in dst is left alone.
   */
  lemma CfgScenario()
    ensures var copy := Stamped(Secret(CfgEvent(Added).metadata.value, CfgEvent(Added).data), "src");
      var added := Handle(map[], "src", CfgEvent(Added));
      && added == Effect(map[("dst", "cfg") := copy], [Create("dst", copy)], Applied)
      && Handle(added.slots, "src", CfgEvent(Modified)).writes == [Replace("dst", "cfg", copy)]
    ensures var theirs := map[("dst", "cfg") := Secret(Meta("cfg", None, None, None), map[])];
      Handle(theirs, "src", CfgEvent(Added)) == Effect(theirs, [], Failed(NotOverridable))
  {
    var trigger := Secret(CfgEvent(Added).metadata.value, CfgEvent(Added).data);
    var copy := Stamped(trigger, "src");
    var empty: Slots := map[];
    CfgGroup(empty, Added);
    assert KeyOf("dst", [trigger][0]) == ("dst", "cfg");
    assert AllOverridable(empty, "src", "dst", [trigger]);
    assert [trigger][1..] == [];
    var once: Slots := map[("dst", "cfg") := copy];
    assert CopyStep(empty, "src", "dst", trigger) == Trace(once, [Create("dst", copy)]);
    CfgGroup(once, Modified);
    assert Secret(CfgEvent(Modified).metadata.value, CfgEvent(Modified).data) == trigger;
    assert Guard(Lookup(once, ("dst", "cfg")), "src") == Pass;
    assert AllOverridable(once, "src", "dst", [trigger]);
    assert CopyStep(once, "src", "dst", trigger).writes == [Replace("dst", "cfg", copy)];
    var theirs := map[("dst", "cfg") := Secret(Meta("cfg", None, None, None), map[])];
    CfgGroup(theirs, Added);
    assert !AllOverridable(theirs, "src", "dst", [trigger]);
  }

  /**
   * A secret in the target namespace that another source owns: the callback
   * as written replaces it with the copy, while the guarded callback rejects
   * the event and leaves it alone.
   */
  lemma UnawaitedGuardOverwritesForeignSecret()
    ensures var foreign := Secret(Meta("t", None, Some(map[SourceNamespaceLabel := "other"]), None), map["key" := "theirs"]);
      var slots := map[("tgt", "t") := foreign];
      var e := Event(Added, Some(Meta("t", Some("src"), Some(map[TargetNamespaceLabel := "tgt"]), None)), map["key" := "ours"]);
      && var after := UnguardedHandle(slots, "src", e).slots;
      && ("tgt", "t") in after && after[("tgt", "t")].data == map["key" := "ours"]
      && UnguardedHandle(slots, "src", e).writes[0].Replace?
      && Handle(slots, "src", e) == Effect(slots, [], Failed(NotOverridable))
  {
    var foreign := Secret(Meta("t", None, Some(map[SourceNamespaceLabel := "other"]), None), map["key" := "theirs"]);
    var slots := map[("tgt", "t") := foreign];
    var labels := map[TargetNamespaceLabel := "tgt"];
    var meta := Meta("t", Some("src"), Some(labels), None);
    var e := Event(Added, Some(meta), map["key" := "ours"]);
    var trigger := Secret(meta, map["key" := "ours"]);
    assert TargetNamespace(e) == Some("tgt");
    assert AdditionalNames(labels) == [];
    assert ResolveAdditional(slots, "src", [], Added) == Ok([]);
    assert [trigger] + [] == [trigger];
    assert EventGroup(slots, "src", e) == Ok([trigger]);
    assert KeyOf("tgt", [trigger][0]) == ("tgt", "t");
    assert Lookup(slots, ("tgt", "t")) == Some(foreign);
    assert Guard(Some(foreign), "src") == Fail(NotOverridable);
    assert !AllOverridable(slots, "src", "tgt", [trigger]);
    assert [trigger][1..] == [];
    var step := CopyStep(slots, "src", "tgt", trigger);
    assert CopyAll(slots, "src", "tgt", [trigger]).slots == CopyAll(step.slots, "src", "tgt", []).slots;
  }
}
