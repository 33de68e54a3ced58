/**
 * The collaborators the client session talks to, stated at their boundary:
 * connection states, raw and named packets, and the packet identity map that
 * translates numeric packet ids to symbolic names and back for a protocol
 * version. The map's contents are not part of this model; a map is any pair of
 * lookup functions.
 */
module Packets {
  import opened Wrappers
  import opened Bytes
  import opened ProtocolVersions

  /** The connection state; a new connection starts in `Handshake`. */
  datatype State = Handshake | Status | Login | Configuration | Play

  function DefaultState(): State {
    Handshake
  }

  /** Which side a packet travels to. */
  datatype PacketRecipient = Client | Server

  /** A frame's id byte and its payload. */
  datatype RawPacket = RawPacket(id: Byte, data: seq<Byte>)

  /** A packet after its id has been resolved to a symbolic name. */
  datatype NamedPacket = NamedPacket(name: string, data: seq<Byte>)

  /** Why a lookup in the packet map failed; its cases are not part of this model. */
  type PacketMapError(==)

  /**
   * The packet identity map: `nameOf(version, state, recipient, id)` is
   * `get_packet_name`, which may fail or find no name; `idOf(version, name)`
   * is `get_packet_id`, which fails when the name has no id for that version.
   */
  datatype PacketMap = PacketMap(
    nameOf: (ProtocolVersion, State, PacketRecipient, Byte) -> Result<Option<string>, PacketMapError>,
    idOf: (ProtocolVersion, string) -> Result<Byte, PacketMapError>)
}
