/**
 * The data the replicator handles and the pure decisions of src/index.ts:
 * secrets and their metadata, the three label keys that form the wire
 * contract, the ownership guard's verdict on an occupied target slot, the
 * metadata rewrite applied before a copy, and the replication intent a
 * watched secret carries.
 */
module Secrets {
  import opened Wrappers
  import Text

  type Labels = map<string, string>

  /** A secret's data (`data`, `type`, ...): copied verbatim, never inspected. */
  type Payload = map<string, string>

  /** Routes a source secret into this namespace. */
  const TargetNamespaceLabel: string := "k8s-copy-secret/target-namespace"
  /** Comma-separated names of further source secrets that travel with it. */
  const AdditionalSecretsLabel: string := "k8s-copy-secret/additional-secrets"
  /** The ownership marker written onto every copy. */
  const SourceNamespaceLabel: string := "k8s-copy-secret/source-namespace"

  /** Object metadata; a field the program may find undefined is an Option. */
  datatype Meta = Meta(name: string, namespace: Option<string>, labels: Option<Labels>, annotations: Option<Labels>)

  datatype Secret = Secret(metadata: Meta, data: Payload)

  /** A slot of the cluster: (namespace, name). */
  type Key = (string, string)

  /** The cluster's secrets, by slot. */
  type Slots = map<Key, Secret>

  /** A write the cluster applied. */
  datatype Write =
    | Create(namespace: string, body: Secret)
    | Replace(namespace: string, name: string, body: Secret)
    | Delete(namespace: string, name: string)

  /** The errors the watch callback raises or reports. */
  datatype Error =
    | NoSuchSecret(name: string)
    | NotOverridable
    | UnknownOperation(kind: string)

  /** The watch event types; anything else the stream delivers is unrecognised. */
  datatype EventType = Added | Modified | Deleted | Unrecognized(kind: string)

  /** One watch notification: its type and the secret object as delivered, whose metadata may be missing. */
  datatype Event = Event(kind: EventType, metadata: Option<Meta>, data: Payload)

  function KeyOf(namespace: string, s: Secret): Key {
    (namespace, s.metadata.name)
  }

  function Lookup(slots: Slots, key: Key): Option<Secret> {
    if key in slots then Some(slots[key]) else None
  }

  /** A label as a JavaScript condition sees it: no labels, no key and the empty string are all falsy. */
  function Label(labels: Option<Labels>, key: string): Option<string> {
    if labels.Some? && key in labels.value && labels.value[key] != "" then Some(labels.value[key]) else None
  }

  /** `{ ...labels }`: spreading undefined labels gives an empty object. */
  function LabelMap(m: Meta): Labels {
    if m.labels.Some? then m.labels.value else map[]
  }

  /** The secret carries the ownership marker of `source`. */
  predicate OwnedBy(s: Secret, source: string) {
    s.metadata.labels.Some?
    && SourceNamespaceLabel in s.metadata.labels.value
    && s.metadata.labels.value[SourceNamespaceLabel] == source
    && source != ""
  }

  /**
   * The verdict of assert_overridable_target on the slot's occupant: an empty
   * slot, or one whose marker names `source`, may be written; anything else
   * raises. (A stored secret without labels makes the program fail with a
   * TypeError on the label read, which ends in the same handler.)
   */
  function Guard(occupant: Option<Secret>, source: string): (r: Outcome<Error>)
    ensures r.Pass? <==> occupant.None? || OwnedBy(occupant.value, source)
    ensures r.Fail? ==> r.error == NotOverridable
  {
    match occupant
    case None => Pass
    case Some(s) =>
      var marker := Label(s.metadata.labels, SourceNamespaceLabel);
      if marker.None? || marker.value != source then Fail(NotOverridable) else Pass
  }

  /**
   * The metadata copy_secret writes: the labels with the ownership marker
   * merged in (overriding any earlier marker), the annotations and the name
   * kept, and `namespace` taken from a field the secret does not have, so
   * left undefined. Every other metadata field is dropped.
   */
  function Stamped(s: Secret, source: string): (r: Secret)
    ensures r.metadata.name == s.metadata.name
    ensures r.metadata.annotations == s.metadata.annotations
    ensures r.data == s.data
    ensures r.metadata.namespace.None?
    ensures r.metadata.labels.Some?
    ensures r.metadata.labels.value.Keys == LabelMap(s.metadata).Keys + {SourceNamespaceLabel}
    ensures r.metadata.labels.value[SourceNamespaceLabel] == source
    ensures forall k :: k in LabelMap(s.metadata) && k != SourceNamespaceLabel ==>
      r.metadata.labels.value[k] == LabelMap(s.metadata)[k]
    ensures source != "" ==> Guard(Some(r), source) == Pass
  {
    var labels := LabelMap(s.metadata)[SourceNamespaceLabel := source];
    Secret(Meta(s.metadata.name, None, Some(labels), s.metadata.annotations), s.data)
  }

  /**
   * The replication intent filter: the target namespace when the event's
   * secret has metadata, labels and a non-empty target-namespace label;
   * otherwise the event is ignored.
   */
  function TargetNamespace(e: Event): (r: Option<string>)
    ensures r.Some? <==>
      e.metadata.Some? && e.metadata.value.labels.Some?
      && TargetNamespaceLabel in e.metadata.value.labels.value
      && e.metadata.value.labels.value[TargetNamespaceLabel] != ""
    ensures r.Some? ==> r.value == e.metadata.value.labels.value[TargetNamespaceLabel]
  {
    if e.metadata.None? || e.metadata.value.labels.None? then None
    else Label(e.metadata.value.labels, TargetNamespaceLabel)
  }

  /**
   * The untrimmed names listed in the additional-secrets label: none when the
   * label is missing or empty, otherwise the comma-separated pieces.
   */
  function AdditionalNames(labels: Labels): (names: seq<string>)
    ensures names == [] <==> AdditionalSecretsLabel !in labels || labels[AdditionalSecretsLabel] == ""
    ensures forall i :: 0 <= i < |names| ==> ',' !in names[i]
    ensures names != [] ==> Text.Join(names, ',') == labels[AdditionalSecretsLabel]
  {
    match Label(Some(labels), AdditionalSecretsLabel)
    case None => []
    case Some(list) =>
      Text.JoinSplit(list, ',');
      Text.Split(list, ',')
  }

  /** The name-only object pushed for an additional secret missing on a DELETED event. */
  function Placeholder(rawName: string): Secret {
    Secret(Meta(rawName, None, None, None), map[])
  }
}
