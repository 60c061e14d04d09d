/**
 * What one watch event does to the cluster, as functions of the cluster's
 * secrets before the event: the group of secrets it resolves, the guard over
 * every member, and the copies or deletes it then applies, in order.
 *
 * The program starts the guard calls and the writes without awaiting them;
 * this model follows their evident sequential intent instead: every member
 * is guarded before the first write, and the writes are applied one member
 * after the other.
 */
module Reconcile {
  import opened Wrappers
  import opened Text
  import opened Secrets

  /** The cluster after some writes, and the writes it applied, in order. */
  datatype Trace = Trace(slots: Slots, writes: seq<Write>)

  /** How the callback ends: ignored by the filter, applied, or reporting an error. */
  datatype Report = Ignored | Applied | Failed(error: Error)

  /** The cluster after one event, the writes it received and the callback's report. */
  datatype Effect = Effect(slots: Slots, writes: seq<Write>, report: Report)

  /* ---------------------------------------------------------------- group */

  /** The source secret an additional name refers to, looked up after trimming. */
  function Fetch(slots: Slots, source: string, rawName: string): Option<Secret> {
    Lookup(slots, (source, Trim(rawName)))
  }

  /** The group member an additional name becomes: the secret found, or a placeholder with the untrimmed name. */
  function Resolved(slots: Slots, source: string, rawName: string): Secret {
    match Fetch(slots, source, rawName)
    case Some(s) => s
    case None => Placeholder(rawName)
  }

  /** `k` is the first additional name with no source secret. */
  predicate FirstMissing(slots: Slots, source: string, rawNames: seq<string>, k: int) {
    && 0 <= k < |rawNames|
    && Fetch(slots, source, rawNames[k]).None?
    && forall j :: 0 <= j < k ==> Fetch(slots, source, rawNames[j]).Some?
  }

  /**
   * The additional members, in label order: each name's source secret, or a
   * placeholder on a deletion; any other event fails on the first missing
   * name, reported untrimmed, before looking further.
   */
  function ResolveAdditional(slots: Slots, source: string, rawNames: seq<string>, kind: EventType): Result<seq<Secret>, Error>
    decreases |rawNames|
  {
    if rawNames == [] then Ok([])
    else if Fetch(slots, source, rawNames[0]).None? && !kind.Deleted? then Err(NoSuchSecret(rawNames[0]))
    else
      match ResolveAdditional(slots, source, rawNames[1..], kind)
      case Err(e) => Err(e)
      case Ok(tail) => Ok([Resolved(slots, source, rawNames[0])] + tail)
  }

  /** Resolution succeeds exactly when the event is a deletion or every name has a source secret. */
  lemma {:induction false} ResolvesExactly(slots: Slots, source: string, rawNames: seq<string>, kind: EventType)
    ensures ResolveAdditional(slots, source, rawNames, kind).Ok? <==>
      kind.Deleted? || forall i :: 0 <= i < |rawNames| ==> Fetch(slots, source, rawNames[i]).Some?
    decreases |rawNames|
  {
    if rawNames != [] {
      var rest := rawNames[1..];
      ResolvesExactly(slots, source, rest, kind);
      forall i | 1 <= i < |rawNames| ensures rawNames[i] == rest[i - 1] { }
    }
  }

  /** A successful resolution yields one member per name, in order. */
  lemma {:induction false} ResolvedInOrder(slots: Slots, source: string, rawNames: seq<string>, kind: EventType)
    requires ResolveAdditional(slots, source, rawNames, kind).Ok?
    ensures var members := ResolveAdditional(slots, source, rawNames, kind).value;
      |members| == |rawNames|
      && forall i :: 0 <= i < |rawNames| ==> members[i] == Resolved(slots, source, rawNames[i])
    decreases |rawNames|
  {
    if rawNames != [] {
      var rest := rawNames[1..];
      var members := ResolveAdditional(slots, source, rawNames, kind).value;
      var tail := ResolveAdditional(slots, source, rest, kind);
      assert tail.Ok? && members == [Resolved(slots, source, rawNames[0])] + tail.value;
      ResolvedInOrder(slots, source, rest, kind);
      forall i | 1 <= i < |rawNames| ensures members[i] == Resolved(slots, source, rawNames[i]) {
        assert rawNames[i] == rest[i - 1] && members[i] == tail.value[i - 1];
      }
    }
  }

  /**
   * Resolution succeeds exactly when the event is a deletion or every name
   * has a source secret, and then yields one member per name, in order.
   */
  lemma ResolvedMembers(slots: Slots, source: string, rawNames: seq<string>, kind: EventType)
    ensures var r := ResolveAdditional(slots, source, rawNames, kind);
      && (r.Ok? <==> kind.Deleted? || forall i :: 0 <= i < |rawNames| ==> Fetch(slots, source, rawNames[i]).Some?)
      && (r.Ok? ==>
            |r.value| == |rawNames|
            && forall i :: 0 <= i < |rawNames| ==> r.value[i] == Resolved(slots, source, rawNames[i]))
  {
    ResolvesExactly(slots, source, rawNames, kind);
    if ResolveAdditional(slots, source, rawNames, kind).Ok? {
      ResolvedInOrder(slots, source, rawNames, kind);
    }
  }

  /** On an event other than a deletion, resolution fails with the first name that has no source secret. */
  lemma {:induction false} ResolveFailsAtFirstMissing(slots: Slots, source: string, rawNames: seq<string>, kind: EventType, k: int)
    requires !kind.Deleted?
    requires FirstMissing(slots, source, rawNames, k)
    ensures ResolveAdditional(slots, source, rawNames, kind) == Err(NoSuchSecret(rawNames[k]))
    decreases |rawNames|
  {
    if k > 0 {
      var rest := rawNames[1..];
      assert Fetch(slots, source, rawNames[0]).Some?;
      forall j | 0 <= j < k - 1 ensures Fetch(slots, source, rest[j]).Some? {
        assert rest[j] == rawNames[j + 1];
      }
      assert rest[k - 1] == rawNames[k];
      ResolveFailsAtFirstMissing(slots, source, rest, kind, k - 1);
    }
  }

  /** A resolution with `prefix` in front of the members it yields. */
  function PrependTo(prefix: seq<Secret>, r: Result<seq<Secret>, Error>): Result<seq<Secret>, Error> {
    match r
    case Err(e) => Err(e)
    case Ok(members) => Ok(prefix + members)
  }

  lemma PrependToAppend(prefix: seq<Secret>, member: Secret, r: Result<seq<Secret>, Error>)
    ensures PrependTo(prefix + [member], r) == PrependTo(prefix, PrependTo([member], r))
  {
    if r.Ok? {
      assert prefix + [member] + r.value == prefix + ([member] + r.value);
    }
  }

  /** The replication group of a triggering secret: the secret itself, then the members its additional names resolve to. */
  function Group(slots: Slots, source: string, trigger: Secret, rawNames: seq<string>, kind: EventType): Result<seq<Secret>, Error> {
    PrependTo([trigger], ResolveAdditional(slots, source, rawNames, kind))
  }

  /** Every member's target slot passes the ownership guard. */
  predicate AllOverridable(slots: Slots, source: string, target: string, group: seq<Secret>) {
    forall i :: 0 <= i < |group| ==> Guard(Lookup(slots, KeyOf(target, group[i])), source).Pass?
  }

  /** The target slots of a group. */
  function Targets(target: string, group: seq<Secret>): set<Key> {
    set i | 0 <= i < |group| :: KeyOf(target, group[i])
  }

  lemma TargetsCons(target: string, group: seq<Secret>)
    requires group != []
    ensures Targets(target, group) == {KeyOf(target, group[0])} + Targets(target, group[1..])
  {
    forall k | k in Targets(target, group) ensures k in {KeyOf(target, group[0])} + Targets(target, group[1..]) {
      var i :| 0 <= i < |group| && k == KeyOf(target, group[i]);
      if i > 0 { assert k == KeyOf(target, group[1..][i - 1]); }
    }
    forall k | k in Targets(target, group[1..]) ensures k in Targets(target, group) {
      var i :| 0 <= i < |group[1..]| && k == KeyOf(target, group[1..][i]);
      assert k == KeyOf(target, group[i + 1]);
    }
  }

  /* ----------------------------------------------------------------- copy */

  /** copy_secret on one member: replace when the target slot is occupied, create otherwise. */
  function CopyStep(slots: Slots, source: string, target: string, s: Secret): Trace {
    var body := Stamped(s, source);
    var key := KeyOf(target, s);
    Trace(slots[key := body], [if key in slots then Replace(target, s.metadata.name, body) else Create(target, body)])
  }

  /** What the copies leave in the target slots: the stamped members, a later member winning over an earlier one. */
  function Written(source: string, target: string, group: seq<Secret>): Slots
    decreases |group|
  {
    if group == [] then map[]
    else map[KeyOf(target, group[0]) := Stamped(group[0], source)] + Written(source, target, group[1..])
  }

  /** The copies write exactly the group's target slots. */
  lemma {:induction false} WrittenKeys(source: string, target: string, group: seq<Secret>)
    ensures Written(source, target, group).Keys == Targets(target, group)
    decreases |group|
  {
    if group != [] {
      WrittenKeys(source, target, group[1..]);
      TargetsCons(target, group);
    }
  }

  /** A target slot holds the stamped copy of the last member written to it. */
  lemma {:induction false} WrittenLast(source: string, target: string, group: seq<Secret>, i: int)
    requires 0 <= i < |group|
    requires forall j :: i < j < |group| ==> KeyOf(target, group[j]) != KeyOf(target, group[i])
    ensures var w := Written(source, target, group);
      KeyOf(target, group[i]) in w && w[KeyOf(target, group[i])] == Stamped(group[i], source)
    decreases |group|
  {
    var key := KeyOf(target, group[i]);
    var rest := group[1..];
    WrittenKeys(source, target, rest);
    if i == 0 {
      assert key !in Targets(target, rest) by {
        forall j | 0 <= j < |rest| ensures KeyOf(target, rest[j]) != key {
          assert rest[j] == group[j + 1];
        }
      }
    } else {
      assert rest[i - 1] == group[i];
      forall j | i - 1 < j < |rest| ensures KeyOf(target, rest[j]) != KeyOf(target, rest[i - 1]) {
        assert rest[j] == group[j + 1];
      }
      WrittenLast(source, target, rest, i - 1);
    }
  }

  /** Every copy carries the ownership marker of its source namespace. */
  lemma {:induction false} WrittenOwned(source: string, target: string, group: seq<Secret>)
    requires source != ""
    ensures forall k :: k in Written(source, target, group) ==> OwnedBy(Written(source, target, group)[k], source)
    decreases |group|
  {
    if group != [] {
      WrittenOwned(source, target, group[1..]);
    }
  }

  /**
   * The Added/Modified branch: copy_secret on every member in order, each
   * write a replace or a create as the slot is occupied at that moment.
   */
  function CopyAll(slots: Slots, source: string, target: string, group: seq<Secret>): Trace
    decreases |group|
  {
    if group == [] then Trace(slots, [])
    else
      var step := CopyStep(slots, source, target, group[0]);
      var rest := CopyAll(step.slots, source, target, group[1..]);
      Trace(rest.slots, step.writes + rest.writes)
  }

  /** The copies leave the cluster as it was, with the group's stamped copies written over it. */
  lemma {:induction false} CopyAllSlots(slots: Slots, source: string, target: string, group: seq<Secret>)
    ensures CopyAll(slots, source, target, group).slots == slots + Written(source, target, group)
    decreases |group|
  {
    if group != [] {
      var step := CopyStep(slots, source, target, group[0]);
      CopyAllSlots(step.slots, source, target, group[1..]);
      UpdateThenUnion(slots, KeyOf(target, group[0]), Stamped(group[0], source), Written(source, target, group[1..]));
    }
  }

  lemma UpdateThenUnion<K, V>(m: map<K, V>, k: K, v: V, w: map<K, V>)
    ensures m[k := v] + w == m + (map[k := v] + w)
  {
  }

  /** The write a copy of member `i` receives: a replace when its slot was occupied before or written by an earlier member. */
  function ExpectedCopy(slots: Slots, source: string, target: string, group: seq<Secret>, i: int): Write
    requires 0 <= i < |group|
  {
    var key := KeyOf(target, group[i]);
    var body := Stamped(group[i], source);
    if key in slots || key in Targets(target, group[..i]) then Replace(target, group[i].metadata.name, body)
    else Create(target, body)
  }

  /**
   * One write per member, in group order, each carrying the stamped member:
   * the first write to an empty slot is a create, every later one a replace.
   */
  lemma {:induction false} CopyAllWrites(slots: Slots, source: string, target: string, group: seq<Secret>)
    ensures var r := CopyAll(slots, source, target, group);
      |r.writes| == |group|
      && forall i :: 0 <= i < |group| ==> r.writes[i] == ExpectedCopy(slots, source, target, group, i)
    decreases |group|
  {
    if group != [] {
      var step := CopyStep(slots, source, target, group[0]);
      var rest := group[1..];
      CopyAllWrites(step.slots, source, target, rest);
      var r := CopyAll(slots, source, target, group);
      var restWrites := CopyAll(step.slots, source, target, rest).writes;
      forall i | 1 <= i < |group| ensures r.writes[i] == ExpectedCopy(slots, source, target, group, i) {
        assert r.writes[i] == restWrites[i - 1];
        assert restWrites[i - 1] == ExpectedCopy(step.slots, source, target, rest, i - 1);
        assert rest[i - 1] == group[i];
        assert group[..i][1..] == rest[..i - 1];
        TargetsCons(target, group[..i]);
      }
      assert group[..0] == [];
    }
  }

  /* --------------------------------------------------------------- delete */

  /** delete_secret on one name: remove the slot when it is occupied; an empty slot is left alone without a write. */
  function DeleteStep(slots: Slots, target: string, name: string): Trace {
    var key := (target, name);
    if key in slots then Trace(slots - {key}, [Delete(target, name)]) else Trace(slots, [])
  }

  /** The Deleted branch: delete_secret on every member in order. */
  function DeleteAll(slots: Slots, target: string, group: seq<Secret>): Trace
    decreases |group|
  {
    if group == [] then Trace(slots, [])
    else
      var step := DeleteStep(slots, target, group[0].metadata.name);
      var rest := DeleteAll(step.slots, target, group[1..]);
      Trace(rest.slots, step.writes + rest.writes)
  }

  /**
   * Every target slot of the group ends up empty and nothing else changes.
   * Each write deletes an occupied group slot, and there is no write exactly
   * when no group slot was occupied.
   */
  lemma {:induction false} DeleteAllEffect(slots: Slots, target: string, group: seq<Secret>)
    ensures var r := DeleteAll(slots, target, group);
      && r.slots == slots - Targets(target, group)
      && (forall w :: w in r.writes ==> w.Delete? && w.namespace == target && (target, w.name) in slots.Keys * Targets(target, group))
      && (r.writes == [] <==> slots.Keys * Targets(target, group) == {})
    decreases |group|
  {
    if group != [] {
      var step := DeleteStep(slots, target, group[0].metadata.name);
      DeleteAllEffect(step.slots, target, group[1..]);
      TargetsCons(target, group);
    }
  }

  /** Name `a` occurs in the group before the first occurrence of name `b`. */
  predicate NamedBefore(group: seq<Secret>, a: string, b: string) {
    exists p :: 0 <= p < |group| && group[p].metadata.name == a
      && forall q :: 0 <= q <= p ==> group[q].metadata.name != b
  }

  /** Every write is a delete, and each names its slot before the next one's is first named. */
  predicate DeletesInGroupOrder(group: seq<Secret>, writes: seq<Write>) {
    forall i, j :: 0 <= i < j < |writes| ==>
      writes[i].Delete? && writes[j].Delete? && NamedBefore(group, writes[i].name, writes[j].name)
  }

  lemma NamedBeforeCons(group: seq<Secret>, a: string, b: string)
    requires group != [] && group[0].metadata.name != b
    requires NamedBefore(group[1..], a, b)
    ensures NamedBefore(group, a, b)
  {
    var rest := group[1..];
    var p :| 0 <= p < |rest| && rest[p].metadata.name == a
      && forall q :: 0 <= q <= p ==> rest[q].metadata.name != b;
    assert group[p + 1] == rest[p];
    forall q | 0 <= q <= p + 1 ensures group[q].metadata.name != b {
      if q > 0 { assert group[q] == rest[q - 1]; }
    }
  }

  /** After the first member's delete step, no later delete names the first member's slot. */
  lemma DeleteRestSkipsFirst(slots: Slots, target: string, group: seq<Secret>, w: Write)
    requires group != []
    requires w in DeleteAll(DeleteStep(slots, target, group[0].metadata.name).slots, target, group[1..]).writes
    ensures w.Delete? && w.name != group[0].metadata.name
  {
    var step := DeleteStep(slots, target, group[0].metadata.name);
    DeleteAllEffect(step.slots, target, group[1..]);
    assert (target, w.name) in step.slots;
  }

  /** Every occupied target slot of the group gets a delete. */
  lemma {:induction false} DeleteAllCovers(slots: Slots, target: string, group: seq<Secret>)
    ensures var r := DeleteAll(slots, target, group);
      forall k :: k in slots.Keys * Targets(target, group) ==> Delete(k.0, k.1) in r.writes
    decreases |group|
  {
    if group != [] {
      var name := group[0].metadata.name;
      var step := DeleteStep(slots, target, name);
      var rest := group[1..];
      var r := DeleteAll(slots, target, group);
      DeleteAllCovers(step.slots, target, rest);
      TargetsCons(target, group);
      forall k | k in slots.Keys * Targets(target, group) ensures Delete(k.0, k.1) in r.writes {
        if k != (target, name) {
          assert k in step.slots.Keys * Targets(target, rest);
        }
      }
    }
  }

  /**
   * The deletes come in the order in which the group first names their
   * slots; in particular no slot is deleted twice.
   */
  lemma {:induction false} DeleteAllOrdered(slots: Slots, target: string, group: seq<Secret>)
    ensures DeletesInGroupOrder(group, DeleteAll(slots, target, group).writes)
    decreases |group|
  {
    if group != [] {
      var name := group[0].metadata.name;
      var step := DeleteStep(slots, target, name);
      var rest := group[1..];
      var tail := DeleteAll(step.slots, target, rest).writes;
      var r := DeleteAll(slots, target, group);
      DeleteAllOrdered(step.slots, target, rest);
      DeleteAllEffect(slots, target, group);
      forall i, j | 0 <= i < j < |r.writes|
        ensures r.writes[i].Delete? && r.writes[j].Delete? && NamedBefore(group, r.writes[i].name, r.writes[j].name)
      {
        var off := |step.writes|;
        assert r.writes[j] == tail[j - off];
        DeleteRestSkipsFirst(slots, target, group, tail[j - off]);
        if i < off {
          assert r.writes[i] == Delete(target, name);
          assert group[0].metadata.name == name;
        } else {
          assert r.writes[i] == tail[i - off];
          NamedBeforeCons(group, r.writes[i].name, r.writes[j].name);
        }
      }
    }
  }

  /**
   * The deletes themselves: every occupied target slot of the group gets a
   * delete, no slot gets two, and the deletes come in the order in which the
   * group first names their slots.
   */
  lemma DeleteAllWrites(slots: Slots, target: string, group: seq<Secret>)
    ensures var r := DeleteAll(slots, target, group);
      && (forall k :: k in slots.Keys * Targets(target, group) ==> Delete(k.0, k.1) in r.writes)
      && (forall i, j :: 0 <= i < j < |r.writes| ==> r.writes[i] != r.writes[j])
      && DeletesInGroupOrder(group, r.writes)
  {
    DeleteAllCovers(slots, target, group);
    DeleteAllOrdered(slots, target, group);
    OrderedDeletesDistinct(group, DeleteAll(slots, target, group).writes);
  }

  /** Deletes in group order never repeat a write. */
  lemma OrderedDeletesDistinct(group: seq<Secret>, writes: seq<Write>)
    requires DeletesInGroupOrder(group, writes)
    ensures forall i, j :: 0 <= i < j < |writes| ==> writes[i] != writes[j]
  {
    forall i, j | 0 <= i < j < |writes| ensures writes[i] != writes[j] {
      assert writes[i].Delete? && writes[j].Delete? && NamedBefore(group, writes[i].name, writes[j].name);
      var a, b := writes[i].name, writes[j].name;
      var p :| 0 <= p < |group| && group[p].metadata.name == a
        && forall q :: 0 <= q <= p ==> group[q].metadata.name != b;
    }
  }

  /* ---------------------------------------------------------------- event */

  /**
   * The watch callback on one event: filter on the replication intent,
   * resolve the group, guard every member, then copy or delete every member
   * in order according to the event type. An event is applied exactly when
   * it carries an intent, has a recognised type, and its group resolves and
   * passes the guard; every other path leaves the cluster as it was, without
   * a write.
   */
  function Handle(slots: Slots, source: string, e: Event): (r: Effect)
    ensures TargetNamespace(e).None? ==> r == Effect(slots, [], Ignored)
    ensures !r.report.Applied? ==> r.slots == slots && r.writes == []
    ensures r.report.Applied? <==>
      && TargetNamespace(e).Some?
      && !e.kind.Unrecognized?
      && var group := Group(slots, source, Secret(e.metadata.value, e.data), AdditionalNames(e.metadata.value.labels.value), e.kind);
      && group.Ok?
      && AllOverridable(slots, source, TargetNamespace(e).value, group.value)
  {
    match TargetNamespace(e)
    case None => Effect(slots, [], Ignored)
    case Some(target) =>
      var meta := e.metadata.value;
      match Group(slots, source, Secret(meta, e.data), AdditionalNames(meta.labels.value), e.kind)
      case Err(err) => Effect(slots, [], Failed(err))
      case Ok(group) =>
        if !AllOverridable(slots, source, target, group) then Effect(slots, [], Failed(NotOverridable))
        else
          match e.kind
          case Added =>
            var t := CopyAll(slots, source, target, group);
            Effect(t.slots, t.writes, Applied)
          case Modified =>
            var t := CopyAll(slots, source, target, group);
            Effect(t.slots, t.writes, Applied)
          case Deleted =>
            var t := DeleteAll(slots, target, group);
            Effect(t.slots, t.writes, Applied)
          case Unrecognized(kind) => Effect(slots, [], Failed(UnknownOperation(kind)))
  }
}
