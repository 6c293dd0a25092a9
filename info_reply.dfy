/** The A2S_INFO reply: its layout as a specification (Decode), the cursor
    walk of SSQL.Server (DecodeInfo) proved equal to it, a writer for the
    layout, and the properties that tie them together. */
module InfoReply {
  import opened Wire
  import opened Records

  /** Byte 4 of an info reply: 'I'. */
  const InfoType: byte := 0x49
  /** The oldest protocol version the decoder accepts. */
  const MinProtocol: byte := 0x07

  // The extra-data flag bits, listed in the order their fields follow the version string.
  const PortFlag: bv8 := 0x80
  const SteamIdFlag: bv8 := 0x10
  const SourceTVFlag: bv8 := 0x40
  const KeywordsFlag: bv8 := 0x20
  const GameIdFlag: bv8 := 0x01

  /** `(extraData & bit) == bit`. */
  predicate HasFlag(flags: byte, bit: bv8)
    ensures HasFlag(flags, bit) && bit != 0 ==> flags != 0
  {
    (flags as bv8) & bit == bit
  }

  /** 'l' listen, 'd' dedicated, 'p' SourceTV relay; anything else leaves NONE. */
  function DedicatedOf(code: byte): (d: DedicatedType)
    ensures d == Listen <==> code == 0x6C
    ensures d == Dedicated <==> code == 0x64
    ensures d == SourceTV <==> code == 0x70
  {
    if code == 0x6C then Listen
    else if code == 0x64 then Dedicated
    else if code == 0x70 then SourceTV
    else DedicatedNone
  }

  /** 'l' Linux, 'w' Windows; anything else leaves NONE. */
  function OSOf(code: byte): (os: OSType)
    ensures os == Linux <==> code == 0x6C
    ensures os == Windows <==> code == 0x77
  {
    if code == 0x6C then Linux
    else if code == 0x77 then Windows
    else OSNone
  }

  /** The game label: the friendly description, then " (", the folder name and ")". */
  function GameLabel(description: seq<byte>, folder: seq<byte>): (g: seq<byte>)
    ensures |g| == |description| + |folder| + 3
    ensures g[..|description|] == description && g[|description| + 2..|g| - 1] == folder
    ensures g[|description|..|description| + 2] == [0x20, 0x28] && g[|g| - 1] == 0x29
  {
    description + [0x20, 0x28] + folder + [0x29]
  }

  // ---------------------------------------------------------------------
  // The layout
  // ---------------------------------------------------------------------

  /** Server name, map name, game folder and game description, each a
      zero-terminated string; the last two make the game label. */
  function Names(t: seq<byte>, info: ServerInfo): (r: Option<Parsed<ServerInfo>>)
    ensures r.Some? ==> |r.value.rest| + 4 <= |t|
    ensures r.Some? ==> r.value.value.(Name := info.Name, Map := info.Map, Game := info.Game) == info
  {
    var name :- CString(t);
    var mapName :- CString(name.rest);
    var folder :- CString(mapName.rest);
    var description :- CString(folder.rest);
    Some(Parsed(info.(Name := name.value, Map := mapName.value,
                      Game := GameLabel(description.value, folder.value)), description.rest))
  }

  /** The application id (signed 16 bits), then one byte each for the player
      count, the player limit and the bot count. */
  function Counts(t: seq<byte>, info: ServerInfo): (r: Option<Parsed<ServerInfo>>)
    ensures r.Some? <==> |t| >= 5
    ensures r.Some? ==> r.value.rest == t[5..]
    ensures r.Some? ==> r.value.value.(AppID := info.AppID, PlayerCount := info.PlayerCount,
                                       MaxPlayers := info.MaxPlayers, BotCount := info.BotCount) == info
  {
    var appId :- ReadInt16(t);
    var players :- ReadByte(appId.rest);
    var maxPlayers :- ReadByte(players.rest);
    var bots :- ReadByte(maxPlayers.rest);
    Some(Parsed(info.(AppID := appId.value, PlayerCount := players.value,
                      MaxPlayers := maxPlayers.value, BotCount := bots.value), bots.rest))
  }

  /** One byte each for the server kind, the operating system, the password
      flag and the VAC flag; a flag is set only by the exact value 1. */
  function Codes(t: seq<byte>, info: ServerInfo): (r: Option<Parsed<ServerInfo>>)
    ensures r.Some? <==> |t| >= 4
    ensures r.Some? ==> r.value.rest == t[4..]
    ensures r.Some? ==> r.value.value.(Dedicated := info.Dedicated, OS := info.OS,
                                       Password := info.Password, VAC := info.VAC) == info
  {
    var dedicated :- ReadByte(t);
    var os :- ReadByte(dedicated.rest);
    var password :- ReadByte(os.rest);
    var vac :- ReadByte(password.rest);
    Some(Parsed(info.(Dedicated := DedicatedOf(dedicated.value), OS := OSOf(os.value),
                      Password := password.value == 1, VAC := vac.value == 1), vac.rest))
  }

  /** Everything from the server name to the version string, read in wire
      order; `rest` is what follows the version's terminator. */
  function Fields(t: seq<byte>): (r: Option<Parsed<ServerInfo>>)
    ensures r.Some? ==> |r.value.rest| + 14 <= |t|
    ensures r.Some? ==> var i := r.value.value;
      i.Port == 0 && i.SteamID == 0 && i.SourceTVPort == 0 && i.SourceTVServerName == None
      && i.Keywords == None && i.GameID == 0
  {
    var names :- Names(t, Blank);
    var counts :- Counts(names.rest, names.value);
    var codes :- Codes(counts.rest, counts.value);
    var version :- CString(codes.rest);
    Some(Parsed(codes.value.(Version := version.value), version.rest))
  }

  function PortField(flags: byte, p: Parsed<ServerInfo>): (r: Option<Parsed<ServerInfo>>)
    ensures !HasFlag(flags, PortFlag) ==> r == Some(p)
    ensures HasFlag(flags, PortFlag) ==> (r.Some? <==> |p.rest| >= 2)
    ensures HasFlag(flags, PortFlag) && r.Some? ==> r.value.rest == p.rest[2..]
  {
    if !HasFlag(flags, PortFlag) then Some(p)
    else
      var port :- ReadInt16(p.rest);
      Some(Parsed(p.value.(Port := port.value), port.rest))
  }

  function SteamIdField(flags: byte, p: Parsed<ServerInfo>): (r: Option<Parsed<ServerInfo>>)
    ensures !HasFlag(flags, SteamIdFlag) ==> r == Some(p)
    ensures HasFlag(flags, SteamIdFlag) ==> (r.Some? <==> |p.rest| >= 8)
    ensures HasFlag(flags, SteamIdFlag) && r.Some? ==> r.value.rest == p.rest[8..]
  {
    if !HasFlag(flags, SteamIdFlag) then Some(p)
    else
      var id :- ReadUInt64(p.rest);
      Some(Parsed(p.value.(SteamID := id.value), id.rest))
  }

  function SourceTVFields(flags: byte, p: Parsed<ServerInfo>): (r: Option<Parsed<ServerInfo>>)
    ensures !HasFlag(flags, SourceTVFlag) ==> r == Some(p)
    ensures HasFlag(flags, SourceTVFlag) && r.Some? ==> |r.value.rest| + 3 <= |p.rest|
  {
    if !HasFlag(flags, SourceTVFlag) then Some(p)
    else
      var port :- ReadInt16(p.rest);
      var name :- CString(port.rest);
      Some(Parsed(p.value.(SourceTVPort := port.value, SourceTVServerName := Some(name.value)), name.rest))
  }

  function KeywordsField(flags: byte, p: Parsed<ServerInfo>): (r: Option<Parsed<ServerInfo>>)
    ensures !HasFlag(flags, KeywordsFlag) ==> r == Some(p)
    ensures HasFlag(flags, KeywordsFlag) && r.Some? ==> |r.value.rest| + 1 <= |p.rest|
  {
    if !HasFlag(flags, KeywordsFlag) then Some(p)
    else
      var keywords :- CString(p.rest);
      Some(Parsed(p.value.(Keywords := Some(keywords.value)), keywords.rest))
  }

  function GameIdField(flags: byte, p: Parsed<ServerInfo>): (r: Option<Parsed<ServerInfo>>)
    ensures !HasFlag(flags, GameIdFlag) ==> r == Some(p)
    ensures HasFlag(flags, GameIdFlag) ==> (r.Some? <==> |p.rest| >= 8)
    ensures HasFlag(flags, GameIdFlag) && r.Some? ==> r.value.rest == p.rest[8..]
  {
    if !HasFlag(flags, GameIdFlag) then Some(p)
    else
      var id :- ReadUInt64(p.rest);
      Some(Parsed(p.value.(GameID := id.value), id.rest))
  }

  /** The optional fields announced by `flags`, each read only when its bit
      is set, in the fixed order port, SteamID, SourceTV, keywords, game id. */
  function Extension(t: seq<byte>, flags: byte, info: ServerInfo): (r: Option<Parsed<ServerInfo>>)
    ensures r.Some? ==> |r.value.rest| <= |t|
  {
    var a :- PortField(flags, Parsed(info, t));
    var b :- SteamIdField(flags, a);
    var c :- SourceTVFields(flags, b);
    var d :- KeywordsField(flags, c);
    GameIdField(flags, d)
  }

  /** The whole reply. Bytes 0 to 3 are skipped unchecked; byte 4 must be 'I'
      and byte 5 at least 7, else the reply is not an info reply. When the
      datagram ends right after the version string there is no extension;
      otherwise one flags byte and the fields it announces follow, and
      anything after them is ignored. */
  function Decode(buf: seq<byte>): (r: Reply<ServerInfo>)
    ensures r != Unreachable
    ensures r.Record? ==> |buf| >= 20 && buf[4] == InfoType && buf[5] >= MinProtocol
  {
    if |buf| < 5 then Malformed
    else if buf[4] != InfoType then NotThisReply
    else if |buf| < 6 then Malformed
    else if buf[5] < MinProtocol then NotThisReply
    else match Fields(buf[6..])
      case None => Malformed
      case Some(base) => WithExtension(base)
  }

  /** The decoder never reports an unreachable server; it answers "not an
      info reply" exactly when byte 4 is not 'I' or byte 5 is below the
      oldest version, and a record only when the header is right and every
      base field up to the version's terminator is there. */
  lemma DecodeOutcomes(buf: seq<byte>)
    ensures Decode(buf) != Unreachable
    ensures Decode(buf) == NotThisReply <==> |buf| >= 5 && (buf[4] != InfoType || (|buf| >= 6 && buf[5] < MinProtocol))
    ensures Decode(buf).Record? ==> |buf| >= 6 && buf[4] == InfoType && buf[5] >= MinProtocol && Fields(buf[6..]).Some?
  {
  }

  /** What follows the version string: nothing, or a flags byte and the
      fields it announces. */
  function WithExtension(base: Parsed<ServerInfo>): (r: Reply<ServerInfo>)
    ensures r != Unreachable && r != NotThisReply
    ensures base.rest == [] ==> r == Record(base.value)
  {
    if base.rest == [] then Record(base.value)
    else match Extension(base.rest[1..], base.rest[0], base.value)
      case None => Malformed
      case Some(full) => Record(full.value)
  }

  // ---------------------------------------------------------------------
  // The cursor walk of SSQL.Server
  // ---------------------------------------------------------------------

  /** The decoding half of SSQL.Server(EndPoint): a cursor `i` starts at 4,
      the record's fields are assigned one at a time, and every read is
      preceded by a check that the byte is there. */
  method DecodeInfo(buf: seq<byte>) returns (r: Reply<ServerInfo>)
    ensures r == Decode(buf)
  {
    var i := 4;
    if |buf| <= i { return Malformed; }
    if buf[i] != InfoType { return NotThisReply; }
    i := i + 1;
    if |buf| <= i { return Malformed; }
    if buf[i] < MinProtocol { return NotThisReply; }
    i := i + 1;

    var found, info;
    found, info, i := DecodeNames(buf, i, Blank);
    if !found { return Malformed; }
    ghost var names := Parsed(info, buf[i..]);
    found, info, i := DecodeCounts(buf, i, info);
    if !found { return Malformed; }
    ghost var counts := Parsed(info, buf[i..]);
    found, info, i := DecodeCodes(buf, i, info);
    if !found { return Malformed; }
    var version;
    found, version, i := ReadCString(buf, i);
    if !found { return Malformed; }
    info := info.(Version := version);
    assert Fields(buf[6..]) == Some(Parsed(info, buf[i..]));

    if |buf| <= i { return Record(info); }
    r := DecodeExtension(buf, i, info);
  }

  /** The four string loops of SSQL.Server, from cursor `start`. */
  method DecodeNames(buf: seq<byte>, start: nat, info: ServerInfo) returns (found: bool, result: ServerInfo, next: nat)
    requires start <= |buf|
    ensures found <==> Names(buf[start..], info).Some?
    ensures found ==> next <= |buf| && Names(buf[start..], info) == Some(Parsed(result, buf[next..]))
  {
    result, next := info, start;
    var name, mapName, folder, description;
    found, name, next := ReadCString(buf, next);
    if !found { return; }
    result := result.(Name := name);
    found, mapName, next := ReadCString(buf, next);
    if !found { return; }
    result := result.(Map := mapName);
    found, folder, next := ReadCString(buf, next);
    if !found { return; }
    found, description, next := ReadCString(buf, next);
    if !found { return; }
    result := result.(Game := GameLabel(description, folder));
  }

  /** BitConverter.ToInt16 at the cursor for the app id, then three single bytes. */
  method DecodeCounts(buf: seq<byte>, start: nat, info: ServerInfo) returns (found: bool, result: ServerInfo, next: nat)
    requires start <= |buf|
    ensures found <==> Counts(buf[start..], info).Some?
    ensures found ==> next <= |buf| && Counts(buf[start..], info) == Some(Parsed(result, buf[next..]))
  {
    result, next := info, start;
    found := false;
    if |buf| < next + 2 { return; }
    assert buf[next..][..2] == buf[next..next + 2];
    result := result.(AppID := Int16Of(buf[next..next + 2]));
    next := next + 2;
    if |buf| <= next { return; }
    result := result.(PlayerCount := buf[next]);
    next := next + 1;
    if |buf| <= next { return; }
    result := result.(MaxPlayers := buf[next]);
    next := next + 1;
    if |buf| <= next { return; }
    result := result.(BotCount := buf[next]);
    next := next + 1;
    found := true;
  }

  /** The server-kind and OS letters, then the password and VAC bytes. */
  method DecodeCodes(buf: seq<byte>, start: nat, info: ServerInfo) returns (found: bool, result: ServerInfo, next: nat)
    requires start <= |buf|
    requires info.Dedicated == DedicatedNone && info.OS == OSNone && !info.Password && !info.VAC
    ensures found <==> Codes(buf[start..], info).Some?
    ensures found ==> next <= |buf| && Codes(buf[start..], info) == Some(Parsed(result, buf[next..]))
  {
    result, next := info, start;
    found := false;
    if |buf| <= next { return; }
    if buf[next] == 0x6C {
      result := result.(Dedicated := Listen);
    } else if buf[next] == 0x64 {
      result := result.(Dedicated := Dedicated);
    } else if buf[next] == 0x70 {
      result := result.(Dedicated := SourceTV);
    }
    next := next + 1;
    if |buf| <= next { return; }
    if buf[next] == 0x6C {
      result := result.(OS := Linux);
    } else if buf[next] == 0x77 {
      result := result.(OS := Windows);
    }
    next := next + 1;
    if |buf| <= next { return; }
    if buf[next] == 0x01 { result := result.(Password := true); }
    next := next + 1;
    if |buf| <= next { return; }
    if buf[next] == 0x01 { result := result.(VAC := true); }
    next := next + 1;
    found := true;
  }

  /** The part of SSQL.Server after the version string: one flags byte at
      cursor `i`, then each announced field in turn. */
  method DecodeExtension(buf: seq<byte>, i: nat, info: ServerInfo) returns (r: Reply<ServerInfo>)
    requires i < |buf|
    ensures r == WithExtension(Parsed(info, buf[i..]))
  {
    var extraData := buf[i];
    assert buf[i..][1..] == buf[i + 1..];
    var found, result, j := DecodePort(buf, extraData, info, i + 1);
    if !found { return Malformed; }
    found, result, j := DecodeSteamId(buf, extraData, result, j);
    if !found { return Malformed; }
    found, result, j := DecodeSourceTV(buf, extraData, result, j);
    if !found { return Malformed; }
    found, result, j := DecodeKeywords(buf, extraData, result, j);
    if !found { return Malformed; }
    found, result, j := DecodeGameId(buf, extraData, result, j);
    if !found { return Malformed; }
    return Record(result);
  }

  /** `if ((extraData & 0x80) == 0x80)`: the game port. */
  method DecodePort(buf: seq<byte>, flags: byte, info: ServerInfo, start: nat) returns (found: bool, result: ServerInfo, next: nat)
    requires start <= |buf|
    ensures found <==> PortField(flags, Parsed(info, buf[start..])).Some?
    ensures found ==> next <= |buf| && PortField(flags, Parsed(info, buf[start..])) == Some(Parsed(result, buf[next..]))
  {
    found, result, next := true, info, start;
    if HasFlag(flags, PortFlag) {
      if |buf| < next + 2 { return false, result, next; }
      assert buf[next..][..2] == buf[next..next + 2];
      result := result.(Port := Int16Of(buf[next..next + 2]));
      next := next + 2;
    }
  }

  /** `if ((extraData & 0x10) == 0x10)`: the server's SteamID. */
  method DecodeSteamId(buf: seq<byte>, flags: byte, info: ServerInfo, start: nat) returns (found: bool, result: ServerInfo, next: nat)
    requires start <= |buf|
    ensures found <==> SteamIdField(flags, Parsed(info, buf[start..])).Some?
    ensures found ==> next <= |buf| && SteamIdField(flags, Parsed(info, buf[start..])) == Some(Parsed(result, buf[next..]))
  {
    found, result, next := true, info, start;
    if HasFlag(flags, SteamIdFlag) {
      if |buf| < next + 8 { return false, result, next; }
      assert buf[next..][..8] == buf[next..next + 8];
      result := result.(SteamID := UInt64Of(buf[next..next + 8]));
      next := next + 8;
    }
  }

  /** `if ((extraData & 0x40) == 0x40)`: the SourceTV port and server name. */
  method DecodeSourceTV(buf: seq<byte>, flags: byte, info: ServerInfo, start: nat) returns (found: bool, result: ServerInfo, next: nat)
    requires start <= |buf|
    ensures found <==> SourceTVFields(flags, Parsed(info, buf[start..])).Some?
    ensures found ==> next <= |buf| && SourceTVFields(flags, Parsed(info, buf[start..])) == Some(Parsed(result, buf[next..]))
  {
    found, result, next := true, info, start;
    if HasFlag(flags, SourceTVFlag) {
      if |buf| < next + 2 { return false, result, next; }
      assert buf[next..][..2] == buf[next..next + 2];
      result := result.(SourceTVPort := Int16Of(buf[next..next + 2]));
      next := next + 2;
      var tvServerName;
      found, tvServerName, next := ReadCString(buf, next);
      if !found { return; }
      result := result.(SourceTVServerName := Some(tvServerName));
    }
  }

  /** `if ((extraData & 0x20) == 0x20)`: the keywords string. */
  method DecodeKeywords(buf: seq<byte>, flags: byte, info: ServerInfo, start: nat) returns (found: bool, result: ServerInfo, next: nat)
    requires start <= |buf|
    ensures found <==> KeywordsField(flags, Parsed(info, buf[start..])).Some?
    ensures found ==> next <= |buf| && KeywordsField(flags, Parsed(info, buf[start..])) == Some(Parsed(result, buf[next..]))
  {
    found, result, next := true, info, start;
    if HasFlag(flags, KeywordsFlag) {
      var keywords;
      found, keywords, next := ReadCString(buf, next);
      if !found { return; }
      result := result.(Keywords := Some(keywords));
    }
  }

  /** `if ((extraData & 0x01) == 0x01)`: the 64-bit game id. */
  method DecodeGameId(buf: seq<byte>, flags: byte, info: ServerInfo, start: nat) returns (found: bool, result: ServerInfo, next: nat)
    requires start <= |buf|
    ensures found <==> GameIdField(flags, Parsed(info, buf[start..])).Some?
    ensures found ==> next <= |buf| && GameIdField(flags, Parsed(info, buf[start..])) == Some(Parsed(result, buf[next..]))
  {
    found, result, next := true, info, start;
    if HasFlag(flags, GameIdFlag) {
      if |buf| < next + 8 { return false, result, next; }
      assert buf[next..][..8] == buf[next..next + 8];
      result := result.(GameID := UInt64Of(buf[next..next + 8]));
      next := next + 8;
    }
  }

  // ---------------------------------------------------------------------
  // Layout facts
  // ---------------------------------------------------------------------

  /** The four strings take their bytes plus one terminator each; the game
      label adds three bytes of its own that are not on the wire. */
  lemma NamesLength(t: seq<byte>, info: ServerInfo)
    requires Names(t, info).Some?
    ensures var p := Names(t, info).value;
      |t| - |p.rest| == |p.value.Name| + |p.value.Map| + |p.value.Game| + 1
  {
  }

  /** The fixed part of the reply between the strings: the cursor moves by
      exactly 2 + 1 + 1 + 1 bytes, and each field is the byte(s) at its offset. */
  lemma CountsLayout(t: seq<byte>, info: ServerInfo)
    requires |t| >= 5
    ensures Counts(t, info) == Some(Parsed(info.(AppID := Int16Of(t[..2]), PlayerCount := t[2],
                                                  MaxPlayers := t[3], BotCount := t[4]), t[5..]))
  {
    assert t[2..][1..][1..][1..] == t[5..];
  }

  /** The four one-byte codes: each consumes exactly one byte. */
  lemma CodesLayout(t: seq<byte>, info: ServerInfo)
    requires |t| >= 4
    ensures Codes(t, info) == Some(Parsed(info.(Dedicated := DedicatedOf(t[0]), OS := OSOf(t[1]),
                                                 Password := t[2] == 1, VAC := t[3] == 1), t[4..]))
  {
    assert t[1..][1..][1..][1..] == t[4..];
  }

  /** A reply in which no zero byte follows the header has no terminated
      server name and never decodes to a record. */
  lemma UnterminatedNameIsMalformed(buf: seq<byte>)
    requires |buf| >= 6 && buf[4] == InfoType && buf[5] >= MinProtocol
    requires 0 !in buf[6..]
    ensures Decode(buf) == Malformed
  {
  }

  /** How many bytes the base fields take: each string with its terminator
      (the game label is three bytes longer than folder and description
      together) and nine single bytes. */
  lemma {:induction false} FieldsLength(t: seq<byte>)
    requires Fields(t).Some?
    ensures var p := Fields(t).value;
      |t| - |p.rest| == |p.value.Name| + |p.value.Map| + |p.value.Game| + |p.value.Version| + 11
  {
    var names := Names(t, Blank).value;
    NamesLength(t, Blank);
    var counts := Counts(names.rest, names.value).value;
    CountsLayout(names.rest, names.value);
    var codes := Codes(counts.rest, counts.value).value;
    CodesLayout(counts.rest, counts.value);
    var version := CString(codes.rest).value;
    assert |codes.rest| - |version.rest| == |version.value| + 1;
  }

  // ---------------------------------------------------------------------
  // Writing a reply
  // ---------------------------------------------------------------------

  /** The optional fields of a reply, as a server sends them: the flags and
      a value for every field (those whose bit is clear are not sent). */
  datatype Extras = Extras(flags: byte, port: int16, steamId: uint64, tvPort: int16,
                           tvName: seq<byte>, keywords: seq<byte>, gameId: uint64)

  /** An info reply as a server sends it. The first four bytes are whatever
      the server put there; the decoder does not look at them. */
  datatype InfoWire = InfoWire(prefix: seq<byte>, protocol: byte,
                               name: seq<byte>, mapName: seq<byte>, folder: seq<byte>, description: seq<byte>,
                               appId: int16, players: byte, maxPlayers: byte, bots: byte,
                               dedicated: byte, os: byte, password: byte, vac: byte,
                               version: seq<byte>, extras: Option<Extras>)

  /** A reply the decoder accepts: a 4-byte prefix, a supported version and
      strings without zero bytes. */
  predicate WellFormed(w: InfoWire) {
    && |w.prefix| == 4 && w.protocol >= MinProtocol
    && 0 !in w.name && 0 !in w.mapName && 0 !in w.folder && 0 !in w.description && 0 !in w.version
    && (w.extras.Some? ==> 0 !in w.extras.value.tvName && 0 !in w.extras.value.keywords)
  }

  function Optional(present: bool, field: seq<byte>): seq<byte> {
    if present then field else []
  }

  function PortBytes(e: Extras): seq<byte> {
    Optional(HasFlag(e.flags, PortFlag), Int16Bytes(e.port))
  }

  function SteamIdBytes(e: Extras): seq<byte> {
    Optional(HasFlag(e.flags, SteamIdFlag), UInt64Bytes(e.steamId))
  }

  function SourceTVBytes(e: Extras): seq<byte> {
    Optional(HasFlag(e.flags, SourceTVFlag), Int16Bytes(e.tvPort) + Terminated(e.tvName))
  }

  function KeywordsBytes(e: Extras): seq<byte> {
    Optional(HasFlag(e.flags, KeywordsFlag), Terminated(e.keywords))
  }

  function GameIdBytes(e: Extras): seq<byte> {
    Optional(HasFlag(e.flags, GameIdFlag), UInt64Bytes(e.gameId))
  }

  /** The bytes of the fields whose bits are set, in wire order. */
  function EncodeExtras(e: Extras): (s: seq<byte>)
    ensures |s| == (if HasFlag(e.flags, PortFlag) then 2 else 0)
                 + (if HasFlag(e.flags, SteamIdFlag) then 8 else 0)
                 + (if HasFlag(e.flags, SourceTVFlag) then 2 + |e.tvName| + 1 else 0)
                 + (if HasFlag(e.flags, KeywordsFlag) then |e.keywords| + 1 else 0)
                 + (if HasFlag(e.flags, GameIdFlag) then 8 else 0)
  {
    PortBytes(e) + (SteamIdBytes(e) + (SourceTVBytes(e) + (KeywordsBytes(e) + GameIdBytes(e))))
  }

  function EncodeExtrasBlock(extras: Option<Extras>): seq<byte> {
    match extras
    case None => []
    case Some(e) => [e.flags] + EncodeExtras(e)
  }

  /** The base fields after the header, up to and including the version's terminator. */
  function EncodeFields(w: InfoWire): seq<byte> {
    Terminated(w.name) + Terminated(w.mapName) + Terminated(w.folder) + Terminated(w.description)
    + Int16Bytes(w.appId) + [w.players, w.maxPlayers, w.bots]
    + [w.dedicated, w.os, w.password, w.vac] + Terminated(w.version)
  }

  /** The datagram a server sends for `w`. */
  function Encode(w: InfoWire): seq<byte> {
    w.prefix + [InfoType, w.protocol] + EncodeFields(w) + EncodeExtrasBlock(w.extras)
  }

  // What each announced field sets in the record; an unset bit changes nothing.

  function WithPort(info: ServerInfo, e: Extras): (r: ServerInfo)
    ensures r.SteamID == info.SteamID && r.SourceTVPort == info.SourceTVPort
    ensures r.SourceTVServerName == info.SourceTVServerName && r.Keywords == info.Keywords && r.GameID == info.GameID
  {
    if HasFlag(e.flags, PortFlag) then info.(Port := e.port) else info
  }

  function WithSteamId(info: ServerInfo, e: Extras): (r: ServerInfo)
    ensures r.Port == info.Port && r.SourceTVPort == info.SourceTVPort
    ensures r.SourceTVServerName == info.SourceTVServerName && r.Keywords == info.Keywords && r.GameID == info.GameID
  {
    if HasFlag(e.flags, SteamIdFlag) then info.(SteamID := e.steamId) else info
  }

  function WithSourceTV(info: ServerInfo, e: Extras): (r: ServerInfo)
    ensures r.Port == info.Port && r.SteamID == info.SteamID && r.Keywords == info.Keywords && r.GameID == info.GameID
  {
    if HasFlag(e.flags, SourceTVFlag) then info.(SourceTVPort := e.tvPort, SourceTVServerName := Some(e.tvName))
    else info
  }

  function WithKeywords(info: ServerInfo, e: Extras): (r: ServerInfo)
    ensures r.Port == info.Port && r.SteamID == info.SteamID && r.SourceTVPort == info.SourceTVPort
    ensures r.SourceTVServerName == info.SourceTVServerName && r.GameID == info.GameID
  {
    if HasFlag(e.flags, KeywordsFlag) then info.(Keywords := Some(e.keywords)) else info
  }

  function WithGameId(info: ServerInfo, e: Extras): (r: ServerInfo)
    ensures r.Port == info.Port && r.SteamID == info.SteamID && r.SourceTVPort == info.SourceTVPort
    ensures r.SourceTVServerName == info.SourceTVServerName && r.Keywords == info.Keywords
  {
    if HasFlag(e.flags, GameIdFlag) then info.(GameID := e.gameId) else info
  }

  /** `info` with the fields `e` announces; the others as they were. */
  function WithExtras(info: ServerInfo, e: Extras): ServerInfo {
    WithGameId(WithKeywords(WithSourceTV(WithSteamId(WithPort(info, e), e), e), e), e)
  }

  /** The record the base fields of `w` describe. */
  function BaseOf(w: InfoWire): ServerInfo {
    Blank.(
      Name := w.name, Map := w.mapName, Game := GameLabel(w.description, w.folder),
      AppID := w.appId, PlayerCount := w.players, MaxPlayers := w.maxPlayers, BotCount := w.bots,
      Dedicated := DedicatedOf(w.dedicated), OS := OSOf(w.os),
      Password := w.password == 1, VAC := w.vac == 1, Version := w.version)
  }

  /** The record a caller should get for `w`. */
  function InfoOf(w: InfoWire): ServerInfo {
    match w.extras
    case None => BaseOf(w)
    case Some(e) => WithExtras(BaseOf(w), e)
  }

  /** The extras in a decoded record, read back for the given flags. */
  function ExtrasOf(flags: byte, info: ServerInfo): Extras {
    Extras(flags, info.Port, info.SteamID, info.SourceTVPort,
           info.SourceTVServerName.GetOr([]), info.Keywords.GetOr([]), info.GameID)
  }

  // ---------------------------------------------------------------------
  // Round trips
  // ---------------------------------------------------------------------

  lemma PortFieldWritten(e: Extras, info: ServerInfo, rest: seq<byte>)
    ensures PortField(e.flags, Parsed(info, PortBytes(e) + rest)) == Some(Parsed(WithPort(info, e), rest))
  {
    if HasFlag(e.flags, PortFlag) {
      Int16RoundTrip(e.port, rest);
    } else {
      assert PortBytes(e) + rest == rest;
    }
  }

  lemma SteamIdFieldWritten(e: Extras, info: ServerInfo, rest: seq<byte>)
    ensures SteamIdField(e.flags, Parsed(info, SteamIdBytes(e) + rest)) == Some(Parsed(WithSteamId(info, e), rest))
  {
    if HasFlag(e.flags, SteamIdFlag) {
      UInt64RoundTrip(e.steamId, rest);
    } else {
      assert SteamIdBytes(e) + rest == rest;
    }
  }

  lemma SourceTVFieldsWritten(e: Extras, info: ServerInfo, rest: seq<byte>)
    requires 0 !in e.tvName
    ensures SourceTVFields(e.flags, Parsed(info, SourceTVBytes(e) + rest)) == Some(Parsed(WithSourceTV(info, e), rest))
  {
    if HasFlag(e.flags, SourceTVFlag) {
      assert SourceTVBytes(e) + rest == Int16Bytes(e.tvPort) + (Terminated(e.tvName) + rest);
      Int16RoundTrip(e.tvPort, Terminated(e.tvName) + rest);
      CStringRoundTrip(e.tvName, rest);
    } else {
      assert SourceTVBytes(e) + rest == rest;
    }
  }

  lemma KeywordsFieldWritten(e: Extras, info: ServerInfo, rest: seq<byte>)
    requires 0 !in e.keywords
    ensures KeywordsField(e.flags, Parsed(info, KeywordsBytes(e) + rest)) == Some(Parsed(WithKeywords(info, e), rest))
  {
    if HasFlag(e.flags, KeywordsFlag) {
      CStringRoundTrip(e.keywords, rest);
    } else {
      assert KeywordsBytes(e) + rest == rest;
    }
  }

  lemma GameIdFieldWritten(e: Extras, info: ServerInfo, rest: seq<byte>)
    ensures GameIdField(e.flags, Parsed(info, GameIdBytes(e) + rest)) == Some(Parsed(WithGameId(info, e), rest))
  {
    if HasFlag(e.flags, GameIdFlag) {
      UInt64RoundTrip(e.gameId, rest);
    } else {
      assert GameIdBytes(e) + rest == rest;
    }
  }

  lemma Associative(a: seq<byte>, b: seq<byte>, c: seq<byte>)
    ensures (a + b) + c == a + (b + c)
  {
  }

  lemma Regroup(a: seq<byte>, b: seq<byte>, c: seq<byte>, d: seq<byte>, e: seq<byte>, rest: seq<byte>)
    ensures (a + (b + (c + (d + e)))) + rest == a + (b + (c + (d + (e + rest))))
  {
  }

  /** Extension is its five steps in order. */
  lemma ExtensionSteps(t: seq<byte>, flags: byte, info: ServerInfo,
                       a: Parsed<ServerInfo>, b: Parsed<ServerInfo>, c: Parsed<ServerInfo>, d: Parsed<ServerInfo>)
    requires PortField(flags, Parsed(info, t)) == Some(a)
    requires SteamIdField(flags, a) == Some(b)
    requires SourceTVFields(flags, b) == Some(c)
    requires KeywordsField(flags, c) == Some(d)
    ensures Extension(t, flags, info) == GameIdField(flags, d)
  {
  }

  /** Decoding written extras gives back every announced field, leaves the
      rest of the record alone and stops exactly where the extras end. */
  lemma {:induction false} ExtensionRoundTrip(e: Extras, info: ServerInfo, rest: seq<byte>)
    requires 0 !in e.tvName && 0 !in e.keywords
    ensures Extension(EncodeExtras(e) + rest, e.flags, info) == Some(Parsed(WithExtras(info, e), rest))
  {
    var tE := GameIdBytes(e) + rest;
    var tD := KeywordsBytes(e) + tE;
    var tC := SourceTVBytes(e) + tD;
    var tB := SteamIdBytes(e) + tC;
    Regroup(PortBytes(e), SteamIdBytes(e), SourceTVBytes(e), KeywordsBytes(e), GameIdBytes(e), rest);
    var a := Parsed(WithPort(info, e), tB);
    PortFieldWritten(e, info, tB);
    var b := Parsed(WithSteamId(a.value, e), tC);
    SteamIdFieldWritten(e, a.value, tC);
    var c := Parsed(WithSourceTV(b.value, e), tD);
    SourceTVFieldsWritten(e, b.value, tD);
    var d := Parsed(WithKeywords(c.value, e), tE);
    KeywordsFieldWritten(e, c.value, tE);
    GameIdFieldWritten(e, d.value, rest);
    ExtensionSteps(EncodeExtras(e) + rest, e.flags, info, a, b, c, d);
  }

  lemma NamesWritten(w: InfoWire, info: ServerInfo, rest: seq<byte>)
    requires 0 !in w.name && 0 !in w.mapName && 0 !in w.folder && 0 !in w.description
    ensures Names(Terminated(w.name) + Terminated(w.mapName) + Terminated(w.folder) + Terminated(w.description) + rest, info)
         == Some(Parsed(info.(Name := w.name, Map := w.mapName, Game := GameLabel(w.description, w.folder)), rest))
  {
    var t3 := Terminated(w.description) + rest;
    var t2 := Terminated(w.folder) + t3;
    var t1 := Terminated(w.mapName) + t2;
    assert Terminated(w.name) + Terminated(w.mapName) + Terminated(w.folder) + Terminated(w.description) + rest
        == Terminated(w.name) + t1;
    CStringRoundTrip(w.name, t1);
    CStringRoundTrip(w.mapName, t2);
    CStringRoundTrip(w.folder, t3);
    CStringRoundTrip(w.description, rest);
  }

  lemma CountsWritten(w: InfoWire, info: ServerInfo, rest: seq<byte>)
    ensures Counts(Int16Bytes(w.appId) + [w.players, w.maxPlayers, w.bots] + rest, info)
         == Some(Parsed(info.(AppID := w.appId, PlayerCount := w.players,
                              MaxPlayers := w.maxPlayers, BotCount := w.bots), rest))
  {
    var t := Int16Bytes(w.appId) + [w.players, w.maxPlayers, w.bots] + rest;
    CountsLayout(t, info);
    assert t[..2] == Int16Bytes(w.appId) && t[5..] == rest;
  }

  lemma CodesWritten(w: InfoWire, info: ServerInfo, rest: seq<byte>)
    ensures Codes([w.dedicated, w.os, w.password, w.vac] + rest, info)
         == Some(Parsed(info.(Dedicated := DedicatedOf(w.dedicated), OS := OSOf(w.os),
                              Password := w.password == 1, VAC := w.vac == 1), rest))
  {
    var t := [w.dedicated, w.os, w.password, w.vac] + rest;
    CodesLayout(t, info);
    assert t[4..] == rest;
  }

  /** The base fields read back exactly as written, and the cursor stops
      right after the version's terminator. */
  lemma {:induction false} FieldsRoundTrip(w: InfoWire, rest: seq<byte>)
    requires WellFormed(w)
    ensures Fields(EncodeFields(w) + rest) == Some(Parsed(BaseOf(w), rest))
  {
    var t4 := Terminated(w.version) + rest;
    var t3 := [w.dedicated, w.os, w.password, w.vac] + t4;
    var t2 := Int16Bytes(w.appId) + [w.players, w.maxPlayers, w.bots] + t3;
    var t1 := Terminated(w.name) + Terminated(w.mapName) + Terminated(w.folder) + Terminated(w.description) + t2;
    assert EncodeFields(w) + rest == t1;
    NamesWritten(w, Blank, t2);
    var names := Names(t1, Blank).value;
    CountsWritten(w, names.value, t3);
    var counts := Counts(t2, names.value).value;
    CodesWritten(w, counts.value, t4);
    CStringRoundTrip(w.version, rest);
  }

  /** A well-formed reply decodes to exactly the record it was written from. */
  lemma {:induction false} DecodeEncode(w: InfoWire)
    requires WellFormed(w)
    ensures Decode(Encode(w)) == Record(InfoOf(w))
  {
    var buf := Encode(w);
    var extras := EncodeExtrasBlock(w.extras);
    assert buf[4] == InfoType && buf[5] == w.protocol && buf[6..] == EncodeFields(w) + extras;
    FieldsRoundTrip(w, extras);
    match w.extras {
      case None =>
      case Some(e) =>
        assert extras[0] == e.flags && extras[1..] == EncodeExtras(e) + [];
        ExtensionRoundTrip(e, BaseOf(w), []);
    }
  }

  // Reading one announced field back: what it consumed is that field's
  // bytes for any extras that agree with the decoded value.

  lemma PortFieldRead(flags: byte, p: Parsed<ServerInfo>, e: Extras)
    requires PortField(flags, p).Some?
    requires e.flags == flags && e.port == PortField(flags, p).value.value.Port
    ensures var q := PortField(flags, p).value;
      p.rest == PortBytes(e) + q.rest && q.value == WithPort(p.value, e)
  {
    if HasFlag(flags, PortFlag) { Int16BytesOf(p.rest[..2]); }
  }

  lemma SteamIdFieldRead(flags: byte, p: Parsed<ServerInfo>, e: Extras)
    requires SteamIdField(flags, p).Some?
    requires e.flags == flags && e.steamId == SteamIdField(flags, p).value.value.SteamID
    ensures var q := SteamIdField(flags, p).value;
      p.rest == SteamIdBytes(e) + q.rest && q.value == WithSteamId(p.value, e)
  {
    if HasFlag(flags, SteamIdFlag) { UInt64BytesOf(p.rest[..8]); }
  }

  lemma SourceTVFieldsRead(flags: byte, p: Parsed<ServerInfo>, e: Extras)
    requires SourceTVFields(flags, p).Some?
    requires e.flags == flags && e.tvPort == SourceTVFields(flags, p).value.value.SourceTVPort
    requires HasFlag(flags, SourceTVFlag) ==> Some(e.tvName) == SourceTVFields(flags, p).value.value.SourceTVServerName
    ensures var q := SourceTVFields(flags, p).value;
      p.rest == SourceTVBytes(e) + q.rest && q.value == WithSourceTV(p.value, e)
  {
    if HasFlag(flags, SourceTVFlag) {
      var port := ReadInt16(p.rest).value;
      var name := CString(port.rest).value;
      Int16BytesOf(p.rest[..2]);
      Associative(Int16Bytes(port.value), Terminated(name.value), name.rest);
    } else {
      assert SourceTVBytes(e) + p.rest == p.rest;
    }
  }

  lemma KeywordsFieldRead(flags: byte, p: Parsed<ServerInfo>, e: Extras)
    requires KeywordsField(flags, p).Some?
    requires e.flags == flags
    requires HasFlag(flags, KeywordsFlag) ==> Some(e.keywords) == KeywordsField(flags, p).value.value.Keywords
    ensures var q := KeywordsField(flags, p).value;
      p.rest == KeywordsBytes(e) + q.rest && q.value == WithKeywords(p.value, e)
  {
  }

  lemma GameIdFieldRead(flags: byte, p: Parsed<ServerInfo>, e: Extras)
    requires GameIdField(flags, p).Some?
    requires e.flags == flags && e.gameId == GameIdField(flags, p).value.value.GameID
    ensures var q := GameIdField(flags, p).value;
      p.rest == GameIdBytes(e) + q.rest && q.value == WithGameId(p.value, e)
  {
    if HasFlag(flags, GameIdFlag) { UInt64BytesOf(p.rest[..8]); }
  }

  /** Decoded extras are exactly the bytes of the announced fields: nothing
      is skipped, an unset bit consumes nothing, and the fields whose bits
      are clear keep the values they had. */
  lemma {:induction false} ExtensionExact(t: seq<byte>, flags: byte, info: ServerInfo)
    requires Extension(t, flags, info).Some?
    ensures var p := Extension(t, flags, info).value;
      && t == EncodeExtras(ExtrasOf(flags, p.value)) + p.rest
      && p.value == WithExtras(info, ExtrasOf(flags, p.value))
  {
    var a := PortField(flags, Parsed(info, t)).value;
    var b := SteamIdField(flags, a).value;
    var c := SourceTVFields(flags, b).value;
    var d := KeywordsField(flags, c).value;
    var x := GameIdField(flags, d).value;
    ExtensionSteps(t, flags, info, a, b, c, d);
    var e := ExtrasOf(flags, x.value);
    GameIdFieldRead(flags, d, e);
    KeywordsFieldRead(flags, c, e);
    SourceTVFieldsRead(flags, b, e);
    SteamIdFieldRead(flags, a, e);
    PortFieldRead(flags, Parsed(info, t), e);
    Regroup(PortBytes(e), SteamIdBytes(e), SourceTVBytes(e), KeywordsBytes(e), GameIdBytes(e), x.rest);
  }

  // ---------------------------------------------------------------------
  // Exhaustion, zero flags and trailing bytes
  // ---------------------------------------------------------------------

  /** A flags byte of zero announces nothing: no field is read and the
      cursor does not move. */
  lemma ZeroFlagsReadNothing(t: seq<byte>, info: ServerInfo)
    ensures Extension(t, 0, info) == Some(Parsed(info, t))
  {
  }

  /** A reply that ends right after the version string has no extension
      fields, and one whose flags byte is zero decodes to the same record,
      whatever follows the flags. */
  lemma ZeroFlagsLikeExhausted(info: ServerInfo, tail: seq<byte>)
    ensures WithExtension(Parsed(info, [])) == Record(info)
    ensures WithExtension(Parsed(info, [0] + tail)) == Record(info)
  {
    assert ([0] + tail)[1..] == tail;
    ZeroFlagsReadNothing(tail, info);
  }

  /** Decode only looks at the header and at what the base fields leave. */
  lemma DecodeBy(buf: seq<byte>, base: Parsed<ServerInfo>)
    requires |buf| >= 6 && buf[4] == InfoType && buf[5] >= MinProtocol && Fields(buf[6..]) == Some(base)
    ensures Decode(buf) == WithExtension(base)
  {
  }

  lemma {:induction false} NamesExtend(t: seq<byte>, z: seq<byte>, info: ServerInfo)
    requires Names(t, info).Some?
    ensures Names(t + z, info) == Some(Parsed(Names(t, info).value.value, Names(t, info).value.rest + z))
  {
    var name := CString(t).value;
    CStringExtend(t, z);
    var mapName := CString(name.rest).value;
    CStringExtend(name.rest, z);
    var folder := CString(mapName.rest).value;
    CStringExtend(mapName.rest, z);
    CStringExtend(folder.rest, z);
  }

  lemma {:induction false} CountsExtend(t: seq<byte>, z: seq<byte>, info: ServerInfo)
    requires Counts(t, info).Some?
    ensures Counts(t + z, info) == Some(Parsed(Counts(t, info).value.value, Counts(t, info).value.rest + z))
  {
    var appId := ReadInt16(t).value;
    ReadInt16Extend(t, z);
    var players := ReadByte(appId.rest).value;
    ReadByteExtend(appId.rest, z);
    var maxPlayers := ReadByte(players.rest).value;
    ReadByteExtend(players.rest, z);
    ReadByteExtend(maxPlayers.rest, z);
  }

  lemma {:induction false} CodesExtend(t: seq<byte>, z: seq<byte>, info: ServerInfo)
    requires Codes(t, info).Some?
    ensures Codes(t + z, info) == Some(Parsed(Codes(t, info).value.value, Codes(t, info).value.rest + z))
  {
    var dedicated := ReadByte(t).value;
    ReadByteExtend(t, z);
    var os := ReadByte(dedicated.rest).value;
    ReadByteExtend(dedicated.rest, z);
    var password := ReadByte(os.rest).value;
    ReadByteExtend(os.rest, z);
    ReadByteExtend(password.rest, z);
  }

  /** Bytes after the version string do not change the base fields. */
  lemma {:induction false} FieldsExtend(t: seq<byte>, z: seq<byte>)
    requires Fields(t).Some?
    ensures Fields(t + z) == Some(Parsed(Fields(t).value.value, Fields(t).value.rest + z))
  {
    var names := Names(t, Blank).value;
    NamesExtend(t, z, Blank);
    var counts := Counts(names.rest, names.value).value;
    CountsExtend(names.rest, z, names.value);
    var codes := Codes(counts.rest, counts.value).value;
    CodesExtend(counts.rest, z, counts.value);
    CStringExtend(codes.rest, z);
  }

  // Each extension step, like the base fields, ignores bytes after what it reads.

  lemma PortFieldExtend(flags: byte, p: Parsed<ServerInfo>, z: seq<byte>)
    requires PortField(flags, p).Some?
    ensures PortField(flags, Parsed(p.value, p.rest + z))
         == Some(Parsed(PortField(flags, p).value.value, PortField(flags, p).value.rest + z))
  {
    if HasFlag(flags, PortFlag) { ReadInt16Extend(p.rest, z); }
  }

  lemma SteamIdFieldExtend(flags: byte, p: Parsed<ServerInfo>, z: seq<byte>)
    requires SteamIdField(flags, p).Some?
    ensures SteamIdField(flags, Parsed(p.value, p.rest + z))
         == Some(Parsed(SteamIdField(flags, p).value.value, SteamIdField(flags, p).value.rest + z))
  {
    if HasFlag(flags, SteamIdFlag) { ReadUInt64Extend(p.rest, z); }
  }

  lemma SourceTVFieldsExtend(flags: byte, p: Parsed<ServerInfo>, z: seq<byte>)
    requires SourceTVFields(flags, p).Some?
    ensures SourceTVFields(flags, Parsed(p.value, p.rest + z))
         == Some(Parsed(SourceTVFields(flags, p).value.value, SourceTVFields(flags, p).value.rest + z))
  {
    if HasFlag(flags, SourceTVFlag) {
      ReadInt16Extend(p.rest, z);
      CStringExtend(ReadInt16(p.rest).value.rest, z);
    }
  }

  lemma KeywordsFieldExtend(flags: byte, p: Parsed<ServerInfo>, z: seq<byte>)
    requires KeywordsField(flags, p).Some?
    ensures KeywordsField(flags, Parsed(p.value, p.rest + z))
         == Some(Parsed(KeywordsField(flags, p).value.value, KeywordsField(flags, p).value.rest + z))
  {
    if HasFlag(flags, KeywordsFlag) { CStringExtend(p.rest, z); }
  }

  lemma GameIdFieldExtend(flags: byte, p: Parsed<ServerInfo>, z: seq<byte>)
    requires GameIdField(flags, p).Some?
    ensures GameIdField(flags, Parsed(p.value, p.rest + z))
         == Some(Parsed(GameIdField(flags, p).value.value, GameIdField(flags, p).value.rest + z))
  {
    if HasFlag(flags, GameIdFlag) { ReadUInt64Extend(p.rest, z); }
  }

  /** Bytes after the announced fields do not change what they decode to. */
  lemma {:induction false} ExtensionExtend(t: seq<byte>, flags: byte, info: ServerInfo, z: seq<byte>)
    requires Extension(t, flags, info).Some?
    ensures Extension(t + z, flags, info).Some?
    ensures Extension(t + z, flags, info).value.value == Extension(t, flags, info).value.value
  {
    var a := PortField(flags, Parsed(info, t)).value;
    var b := SteamIdField(flags, a).value;
    var c := SourceTVFields(flags, b).value;
    var d := KeywordsField(flags, c).value;
    ExtensionSteps(t, flags, info, a, b, c, d);
    PortFieldExtend(flags, Parsed(info, t), z);
    var a' := Parsed(a.value, a.rest + z);
    SteamIdFieldExtend(flags, a, z);
    var b' := Parsed(b.value, b.rest + z);
    SourceTVFieldsExtend(flags, b, z);
    var c' := Parsed(c.value, c.rest + z);
    KeywordsFieldExtend(flags, c, z);
    var d' := Parsed(d.value, d.rest + z);
    GameIdFieldExtend(flags, d, z);
    ExtensionSteps(t + z, flags, info, a', b', c', d');
  }

  /** Bytes after a decoded reply change nothing when the reply carries a
      flags byte, and nothing either when it ends at the version string and
      the added bytes start with a zero flags byte. */
  lemma {:induction false} DecodeExtend(buf: seq<byte>, z: seq<byte>)
    requires Decode(buf).Record?
    requires Fields(buf[6..]).value.rest == [] ==> z == [] || z[0] == 0
    ensures Decode(buf + z) == Decode(buf)
  {
    DecodeOutcomes(buf);
    var base := Fields(buf[6..]).value;
    DecodeBy(buf, base);
    HeaderExtend(buf, z, base);
    WithExtensionExtend(base, z);
  }

  lemma HeaderExtend(buf: seq<byte>, z: seq<byte>, base: Parsed<ServerInfo>)
    requires |buf| >= 6 && buf[4] == InfoType && buf[5] >= MinProtocol && Fields(buf[6..]) == Some(base)
    ensures Decode(buf + z) == WithExtension(Parsed(base.value, base.rest + z))
  {
    var longer := buf + z;
    var p := Parsed(base.value, base.rest + z);
    assert |longer| >= 6 && longer[4] == InfoType && longer[5] >= MinProtocol by {
      assert longer[4] == buf[4] && longer[5] == buf[5];
    }
    assert Fields(longer[6..]) == Some(p) by {
      DropAppend(buf, z, 6);
      FieldsExtend(buf[6..], z);
    }
    DecodeBy(longer, p);
  }

  lemma {:induction false} WithExtensionExtend(base: Parsed<ServerInfo>, z: seq<byte>)
    requires WithExtension(base).Record?
    requires base.rest == [] ==> z == [] || z[0] == 0
    ensures WithExtension(Parsed(base.value, base.rest + z)) == WithExtension(base)
  {
    if base.rest == [] {
      assert base.rest + z == z;
      if z != [] {
        assert z == [0] + z[1..];
        ZeroFlagsLikeExhausted(base.value, z[1..]);
      }
    } else {
      assert (base.rest + z)[1..] == base.rest[1..] + z;
      ExtensionExtend(base.rest[1..], base.rest[0], base.value, z);
    }
  }

  /** Whenever the datagram alone decodes to a record or is recognised as
      another kind of reply, decoding the zero-padded receive buffer gives
      the same answer: the padding differs only where the datagram would
      have run out. */
  lemma {:induction false} PaddedAgrees(d: seq<byte>)
    requires |d| <= BufferSize && Decode(d) != Malformed
    ensures Decode(Padded(d)) == Decode(d)
  {
    var zeros: seq<byte> := seq(BufferSize - |d|, _ => 0);
    assert Padded(d) == d + zeros;
    DecodeOutcomes(d);
    if Decode(d).Record? {
      DecodeExtend(d, zeros);
    }
  }
}
