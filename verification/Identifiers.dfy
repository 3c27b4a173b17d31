/** Opaque identifiers shared by the models of the DHT and of the pubsub router. */
module Identifiers {

  /** A libp2p peer identity; only equality matters to the protocols. */
  type PeerId(==, !new)
}
