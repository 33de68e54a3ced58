/**
 * One client connection: its current state, the protocol version it negotiated
 * (absent until the handshake sets it, and read as the default meanwhile), and
 * the game profile set after login. Incoming frames are resolved to packet names
 * for the current version, state and server-bound direction; outgoing packets
 * get their id for the current version and are dropped when they have none.
 *
 * The socket is not modelled: a read is given the frame the stream produced, a
 * send is given whether the stream accepted the write, and the frames accepted
 * so far are recorded in the ghost log `sent`.
 */
module ClientSession {
  import opened Wrappers
  import opened Bytes
  import opened Int64
  import opened LongCodec
  import opened ProtocolVersions
  import P = Packets

  /** The identity established by login; its contents are not part of this model. */
  type GameProfile(==)

  /** A failure of the underlying frame stream; its cases are not part of this model. */
  type PacketStreamError(==)

  /** A failure of a packet's own encoder; its cases are not part of this model. */
  type EncodeError(==)

  datatype ClientReadPacketError = PacketStream(streamError: PacketStreamError) | UnknownPacket(id: Byte)

  /** A typed packet ready to send: its symbolic name and the outcome of encoding its fields. */
  datatype OutboundPacket = OutboundPacket(name: string, encoded: Result<seq<Byte>, EncodeError>)

  /** The name under which the client-bound keep-alive packet is registered. */
  const KEEP_ALIVE_NAME: string := "play/clientbound/minecraft:keep_alive"

  /** The client-bound keep-alive packet: its payload is the one `i64` field, which reads back as `id`. */
  function KeepAlivePacket(id: I64): (r: OutboundPacket)
    ensures r.name == KEEP_ALIVE_NAME && r.encoded.Success?
    ensures |r.encoded.value| == 8
    ensures DecodeLong(r.encoded.value, 0) == Success((id, 8))
  {
    LongRoundTrip(id, [], []);
    assert EncodeLong(id, []) + [] == EncodeLong(id, []);
    OutboundPacket(KEEP_ALIVE_NAME, Success(EncodeLong(id, [])))
  }

  class Client {
    var state: P.State
    var version: Option<ProtocolVersion>
    var gameProfile: Option<GameProfile>
    const packetMap: P.PacketMap
    /** Every frame written to the stream, oldest first. */
    ghost var sent: seq<P.RawPacket>

    constructor (packetMap: P.PacketMap)
      ensures state == P.DefaultState() && state == P.Handshake
      ensures version == None && gameProfile == None
      ensures this.packetMap == packetMap
      ensures sent == []
    {
      this.packetMap := packetMap;
      state := P.DefaultState();
      gameProfile := None;
      version := None;
      sent := [];
    }

    /** `protocol_version`: the negotiated version, or the default before negotiation. */
    function CurrentVersion(): (v: ProtocolVersion)
      reads this
      ensures version.Some? ==> v == version.value
      ensures version.None? ==> v == Default()
    {
      version.GetOr(Default())
    }

    /** `get_packet_name_from_id`: a failed lookup counts as no name. */
    function PacketNameFromId(id: Byte): (r: Option<string>)
      reads this
      ensures r.Some? ==> packetMap.nameOf(CurrentVersion(), state, P.Server, id) == Success(r)
      ensures packetMap.nameOf(CurrentVersion(), state, P.Server, id).Failure? ==> r == None
      ensures packetMap.nameOf(CurrentVersion(), state, P.Server, id).Success? ==>
        r == packetMap.nameOf(CurrentVersion(), state, P.Server, id).value
    {
      match packetMap.nameOf(CurrentVersion(), state, P.Server, id)
      case Success(name) => name
      case Failure(_) => None
    }

    /** `read_packet`, given what the frame stream produced. */
    method ReadPacket(frame: Result<P.RawPacket, PacketStreamError>) returns (r: Result<P.NamedPacket, ClientReadPacketError>)
      ensures frame.Failure? ==> r == Failure(PacketStream(frame.error))
      ensures frame.Success? ==>
        match packetMap.nameOf(CurrentVersion(), state, P.Server, frame.value.id)
        case Success(Some(name)) => r == Success(P.NamedPacket(name, frame.value.data))
        case _ => r == Failure(UnknownPacket(frame.value.id))
    {
      match frame
      case Failure(e) =>
        r := Failure(PacketStream(e));
      case Success(packet) =>
        var name := PacketNameFromId(packet.id);
        if name.Some? {
          r := Success(P.NamedPacket(name.value, packet.data));
        } else {
          r := Failure(UnknownPacket(packet.id));
        }
    }

    /** `update_state`. */
    method UpdateState(newState: P.State)
      modifies this`state
      ensures state == newState
    {
      state := newState;
    }

    /**
     * `send_packet`: looks up the packet's id for the current version, encodes
     * it and writes the frame. A missing id, an encoding failure or a failed
     * write is logged and the packet dropped; nothing is returned to the caller.
     */
    method SendPacket(packet: OutboundPacket, written: bool)
      modifies this`sent
      ensures packetMap.idOf(CurrentVersion(), packet.name).Failure? ==> sent == old(sent)
      ensures sent == old(sent) +
        match packetMap.idOf(CurrentVersion(), packet.name)
        case Success(id) =>
          if packet.encoded.Success? && written then [P.RawPacket(id, packet.encoded.value)] else []
        case Failure(_) => []
    {
      var id := packetMap.idOf(CurrentVersion(), packet.name).ToOption();
      if id.Some? {
        if packet.encoded.Success? && written {
          sent := sent + [P.RawPacket(id.value, packet.encoded.value)];
        }
      }
    }

    /** `send_keep_alive`: sends a keep-alive carrying the given random value, in `Play` only. */
    method SendKeepAlive(randomValue: I64, written: bool)
      modifies this`sent
      ensures state != P.Play ==> sent == old(sent)
      ensures state == P.Play ==>
        sent == old(sent) +
          match packetMap.idOf(CurrentVersion(), KEEP_ALIVE_NAME)
          case Success(id) => if written then [P.RawPacket(id, EncodeLong(randomValue, []))] else []
          case Failure(_) => []
    {
      if state == P.Play {
        SendPacket(KeepAlivePacket(randomValue), written);
      }
    }

    /** `set_game_profile`. */
    method SetGameProfile(profile: GameProfile)
      modifies this`gameProfile
      ensures gameProfile == Some(profile)
    {
      gameProfile := Some(profile);
    }

    /** `set_protocol`: from now on, lookups use the given version. */
    method SetProtocol(protocolVersion: ProtocolVersion)
      modifies this`version
      ensures version == Some(protocolVersion)
      ensures CurrentVersion() == protocolVersion
    {
      version := Some(protocolVersion);
    }
  }

  /**
   * A connection that goes from `Handshake` through `Login` and `Configuration`
   * to `Play`: keep-alives are held back until `Play`, and the state that
   * `read_packet` resolves names in is always the last one committed.
   */
  method KeepAliveOnlyInPlay(packetMap: P.PacketMap, v: ProtocolVersion, value: I64, frame: P.RawPacket)
  {
    var c := new Client(packetMap);
    c.SetProtocol(v);
    c.UpdateState(P.Login);
    c.UpdateState(P.Configuration);
    c.SendKeepAlive(value, true);
    assert c.sent == [];
    var r := c.ReadPacket(Success(frame));
    assert r.Success? ==> packetMap.nameOf(v, P.Configuration, P.Server, frame.id) == Success(Some(r.value.name));
    c.UpdateState(P.Play);
    c.SendKeepAlive(value, true);
    assert packetMap.idOf(v, KEEP_ALIVE_NAME).Success? ==> |c.sent| == 1;
  }
}
