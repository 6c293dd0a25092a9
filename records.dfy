/** The records a query produces (SSQLib/ServerInfo.cs and the PlayerInfo
    record SSQL.cs fills in) and the outcome of a query. */
module Records {
  import opened Wire

  /** How the server is hosted; DedicatedNone is the source's NONE default. */
  datatype DedicatedType = DedicatedNone | Listen | Dedicated | SourceTV

  /** The server's operating system; OSNone is the source's NONE default. */
  datatype OSType = OSNone | Windows | Linux

  /** A decoded A2S_INFO reply, with the field types SSQL.cs assigns. The
      extension fields keep their defaults (0 and a null string, here None)
      unless the extra-data flags announce them. */
  datatype ServerInfo = ServerInfo(
    Name: seq<byte>,
    Map: seq<byte>,
    Game: seq<byte>,
    Version: seq<byte>,
    AppID: int16,
    PlayerCount: byte,
    MaxPlayers: byte,
    BotCount: byte,
    Dedicated: DedicatedType,
    OS: OSType,
    Password: bool,
    VAC: bool,
    Port: int16,
    SteamID: uint64,
    SourceTVPort: int16,
    SourceTVServerName: Option<seq<byte>>,
    Keywords: Option<seq<byte>>,
    GameID: uint64)

  /** A freshly constructed ServerInfo, before the decoder assigns anything. */
  const Blank: ServerInfo :=
    ServerInfo([], [], [], [], 0, 0, 0, 0, DedicatedNone, OSNone, false, false, 0, 0, 0, None, None, 0)

  /** One row of an A2S_PLAYER reply. Time is the 16-bit integer the source
      casts to float. */
  datatype PlayerInfo = PlayerInfo(Index: byte, Name: seq<byte>, Kills: int32, Time: uint16)

  /** What a query gives its caller: a record; NotThisReply where the source
      returns null; Malformed where the source would read past the bytes
      received; Unreachable where it throws SSQLServerException. */
  datatype Reply<+T> = Record(value: T) | NotThisReply | Malformed | Unreachable
}
