/** The messages and error severities of src/msg.rs that the low-latency path uses. */
module Messages {

  type Address = nat
  type Username = string

  datatype ServerMessage = WorldState(state: seq<nat>) | LastTickReceived(tick: nat)

  datatype Warning =
    | FailedToCompress
    | FailedToDecompress
    | FailedToDeserialize
    | IoFailure
    | UnknownSource(source: Address)

  datatype Drop = ApplicationThreadDisconnected | IoDrop

  /** A warning is logged, a drop ends a client's loop, an exit ends any loop. */
  datatype CommError = Warn(warning: Warning) | Dropped(drop: Drop) | Exit

  datatype Outcome = Ok | Err(error: CommError)
}
