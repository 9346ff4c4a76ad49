/**
 * Values shared by the whole model of the Realm-backed MQEmitter: messages,
 * topic configuration, the options object, the write transactions issued
 * against the partition stores and the registry built from the options.
 */
module Types {

  datatype Option<T> = None | Some(value: T)

  /** A message payload; MQTT payloads are raw bytes. */
  type Payload = seq<bv8>

  /** An emitted message. Only the topic and the payload matter to the core. */
  datatype Message = Message(topic: string, payload: Payload)

  /**
   * A configured transformer together with the `realm.create` call that
   * stores its output: `Some(record)` when both succeed, `None` when either
   * throws (a malformed JSON payload, a record the schema rejects). The
   * outcome depends on the payload only: a primary-key clash with a record
   * already in the store is not modelled.
   */
  type Transform<R> = Payload -> Option<R>

  /** One entry of the `topics` option. */
  datatype TopicConfig<R> = TopicConfig(name: string, transformer: Transform<R>, partitionValue: string)

  /**
   * The options object handed to the constructor. `hasSchema` and
   * `realmUser` stand for the truthiness of `opts.schema` and
   * `opts.realmUser`; the schema itself is opaque to the core.
   */
  datatype Options<R> = Options(
    hasSchema: bool,
    topics: Option<seq<TopicConfig<R>>>,
    realmUser: bool,
    compactionThreshold: Option<int>)

  /** One committed `realm.write` transaction: the records it created, in order. */
  datatype WriteTx<R> = WriteTx(partition: string, records: seq<R>)

  /**
   * The three parallel arrays `_topics`, `_partitionValues` and
   * `_transformers`: index `i` says that messages on `topics[i]` are
   * transformed by `transformers[i]` and written to the partition
   * `partitionValues[i]`.
   */
  datatype Registry<R> = Registry(
    topics: seq<string>,
    partitionValues: seq<string>,
    transformers: seq<Transform<R>>)
  {
    predicate Valid() {
      |topics| == |partitionValues| == |transformers|
    }
  }

  /** The registry the constructor builds from the `topics` option. */
  function RegistryOf<R>(configs: seq<TopicConfig<R>>): (reg: Registry<R>)
    ensures reg.Valid() && |reg.topics| == |configs|
    ensures forall i :: 0 <= i < |configs| ==>
      && reg.topics[i] == configs[i].name
      && reg.partitionValues[i] == configs[i].partitionValue
      && reg.transformers[i] == configs[i].transformer
  {
    Registry(
      seq(|configs|, i requires 0 <= i < |configs| => configs[i].name),
      seq(|configs|, i requires 0 <= i < |configs| => configs[i].partitionValue),
      seq(|configs|, i requires 0 <= i < |configs| => configs[i].transformer))
  }
}
