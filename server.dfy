/**
  What the info and players handlers share: the server-wide player counts
  (declared beside the entry point, src/main.rs) and the observable outcome
  of handling one datagram.
 */
module Server {
  import opened Bytes

  /** Players reported as connected, in both the info and the players reply. */
  const ServerCurrentPlayers: byte := 32

  /** Player capacity reported in the info reply. */
  const ServerMaxPlayers: byte := 128

  /**
    What handling one request payload does to the outside world: nothing,
    one datagram sent back to the source address, or a panic of the
    server process (an `expect` that fails).
   */
  datatype Outcome =
    | Silent
    | Sent(packet: seq<byte>)
    | Panicked(message: string)
}
