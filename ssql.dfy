/** The two queries of class SSQL: Server, one request and the information
    reply; and Players, the challenge handshake followed by the player
    reply. The UDP exchange is a parameter: a function from the request
    datagram to the reply datagram, or to a failure when sending or
    receiving throws. */
module Ssql {
  import opened Wire
  import opened Records
  import opened PacketCodec
  import InfoReply
  import PlayerReply

  /** What one round trip over the socket gives: the datagram the server
      sent, or a failure (which the socket layer turns into
      SSQLServerException). */
  datatype Exchange = Received(datagram: seq<byte>) | Failed

  /** The transport: what the server answers to a request. */
  type Network = seq<byte> -> Exchange

  /** Byte 4 of the probe and of the player request: 'U'. */
  const PlayerRequestType: byte := 0x55

  /** Byte 4 of a challenge reply: 'A'. */
  const ChallengeType: byte := 0x41

  /** The challenge probe: the prefix, 'U' and a challenge of four zeros. */
  const ChallengeProbe: seq<byte> := Prefix + [PlayerRequestType, 0, 0, 0, 0]

  /** The information request as the Packet class frames it. */
  function InfoRequest(): (f: seq<byte>)
    ensures |f| == 25 && f[..5] == Prefix + [0x54]
  {
    InfoQueryFrame();
    Frame(AsciiBytes(InfoQueryText))
  }

  /** The player request for a challenge reply: the prefix, 'U', and bytes
      5 to 8 of the reply, unchanged. */
  function PlayerRequest(challenge: seq<byte>): (f: seq<byte>)
    requires |challenge| >= 9
    ensures |f| == 9 && f[..4] == Prefix && f[4] == PlayerRequestType
    ensures f[5..] == challenge[5..9]
  {
    Prefix + [PlayerRequestType] + challenge[5..9]
  }

  // ---------------------------------------------------------------------
  // SSQL.Server(EndPoint)
  // ---------------------------------------------------------------------

  /** A failed exchange is reported as an unreachable server; a received
      datagram is decoded as an information reply. */
  function ServerQuery(network: Network): (r: Reply<ServerInfo>)
    ensures r == Unreachable <==> network(InfoRequest()).Failed?
  {
    match network(InfoRequest())
    case Failed => Unreachable
    case Received(buf) => InfoReply.Decode(buf)
  }

  method Server(network: Network) returns (r: Reply<ServerInfo>)
    ensures r == ServerQuery(network)
  {
    var requestPacket := new Packet();
    requestPacket.Data := InfoQueryText;
    InfoQueryFrame();
    var request := requestPacket.OutputAsBytes();
    var reply := network(request[..]);
    match reply {
      case Failed =>
        return Unreachable;
      case Received(buf) =>
        r := InfoReply.DecodeInfo(buf);
    }
  }

  /** The query reports an unreachable server exactly when the exchange
      fails; it answers "not an information reply" exactly when the reply's
      byte 4 is not 'I' or its protocol byte is below 7. */
  lemma ServerOutcomes(network: Network)
    ensures ServerQuery(network) == Unreachable <==> network(InfoRequest()).Failed?
    ensures ServerQuery(network) == NotThisReply <==>
      && network(InfoRequest()).Received?
      && var buf := network(InfoRequest()).datagram;
         |buf| >= 5 && (buf[4] != InfoReply.InfoType || (|buf| >= 6 && buf[5] < InfoReply.MinProtocol))
  {
    if network(InfoRequest()).Received? {
      InfoReply.DecodeOutcomes(network(InfoRequest()).datagram);
    }
  }

  /** A server that answers the information request with a well-formed
      reply is reported with exactly the fields it wrote. */
  lemma ServerAnswers(network: Network, w: InfoReply.InfoWire)
    requires InfoReply.WellFormed(w)
    requires network(InfoRequest()) == Received(InfoReply.Encode(w))
    ensures ServerQuery(network) == Record(InfoReply.InfoOf(w))
  {
    InfoReply.DecodeEncode(w);
  }

  // ---------------------------------------------------------------------
  // SSQL.Players(IPEndPoint)
  // ---------------------------------------------------------------------

  /** The handshake: a failed probe is an unreachable server; a reply
      without 'A' at byte 4 ends the query with nothing; otherwise the
      challenge is echoed in the player request, a failure of that second
      exchange also ends the query with nothing, and the second reply is
      decoded as a player reply. */
  function PlayersQuery(network: Network): (r: Reply<seq<PlayerInfo>>)
    ensures r == Unreachable <==> network(ChallengeProbe).Failed?
  {
    match network(ChallengeProbe)
    case Failed => Unreachable
    case Received(c) =>
      if |c| < 5 then Malformed
      else if c[4] != ChallengeType then NotThisReply
      else if |c| < 9 then Malformed
      else match network(PlayerRequest(c))
        case Failed => NotThisReply
        case Received(buf) => PlayerReply.Decode(buf)
  }

  /** The challenge probe, filled index by index. */
  method NewProbe() returns (challenge: array<byte>)
    ensures fresh(challenge)
    ensures challenge[..] == ChallengeProbe
  {
    challenge := new byte[9];
    challenge[0] := 0xFF;
    challenge[1] := 0xFF;
    challenge[2] := 0xFF;
    challenge[3] := 0xFF;
    challenge[4] := PlayerRequestType;
    challenge[5] := 0x00;
    challenge[6] := 0x00;
    challenge[7] := 0x00;
    challenge[8] := 0x00;
  }

  /** The player request, filled index by index, with the challenge copied
      from bytes 5 to 8 of the reply one byte at a time; the copy stops
      when the reply runs out. */
  method NewPlayerRequest(buf: seq<byte>) returns (found: bool, requestPlayer: array<byte>)
    requires |buf| >= 5
    ensures fresh(requestPlayer)
    ensures found <==> |buf| >= 9
    ensures found ==> requestPlayer[..] == PlayerRequest(buf)
  {
    requestPlayer := new byte[9];
    requestPlayer[0] := 0xFF;
    requestPlayer[1] := 0xFF;
    requestPlayer[2] := 0xFF;
    requestPlayer[3] := 0xFF;
    requestPlayer[4] := PlayerRequestType;
    var i: nat := 5;
    while i < 9
      invariant 5 <= i <= 9 && i <= |buf|
      invariant requestPlayer[..5] == Prefix + [PlayerRequestType]
      invariant requestPlayer[5..i] == buf[5..i]
    {
      if |buf| <= i { return false, requestPlayer; }
      requestPlayer[i] := buf[i];
      i := i + 1;
    }
    assert requestPlayer[..] == requestPlayer[..5] + requestPlayer[5..9];
    found := true;
  }

  /** The handshake and the decoding of the player reply. */
  method Players(network: Network) returns (r: Reply<seq<PlayerInfo>>)
    ensures r == PlayersQuery(network)
  {
    var challenge := NewProbe();
    var reply := network(challenge[..]);
    if reply.Failed? {
      return Unreachable;
    }
    var buf := reply.datagram;
    var i: nat := 4;
    if |buf| <= i { return Malformed; }
    if buf[i] != ChallengeType { return NotThisReply; }
    var found, requestPlayer := NewPlayerRequest(buf);
    if !found { return Malformed; }
    reply := network(requestPlayer[..]);
    if reply.Failed? {
      return NotThisReply;
    }
    r := PlayerReply.DecodePlayers(reply.datagram);
  }

  /** The query reports an unreachable server exactly when the probe's
      exchange fails, as the tests against an address with no server
      expect. It gives no list exactly when the challenge reply lacks 'A'
      at byte 4, when the second exchange fails, or when the player reply
      lacks 'D' at byte 4. */
  lemma PlayersOutcomes(network: Network)
    ensures PlayersQuery(network) == Unreachable <==> network(ChallengeProbe).Failed?
    ensures PlayersQuery(network) == NotThisReply <==>
      && network(ChallengeProbe).Received?
      && var c := network(ChallengeProbe).datagram;
         |c| >= 5 && (c[4] != ChallengeType ||
           (|c| >= 9 && (network(PlayerRequest(c)).Failed? ||
             (var buf := network(PlayerRequest(c)).datagram; |buf| >= 5 && buf[4] != PlayerReply.PlayerType))))
  {
    match network(ChallengeProbe)
    case Failed =>
    case Received(c) =>
      if |c| >= 9 && c[4] == ChallengeType {
        match network(PlayerRequest(c))
        case Failed =>
        case Received(buf) => PlayerReply.DecodeOutcomes(buf);
      }
  }

  /** The challenge reply a server sends: four prefix bytes, 'A' and its
      four challenge bytes. */
  function ChallengeReply(prefix: seq<byte>, challenge: seq<byte>): seq<byte> {
    prefix + [ChallengeType] + challenge
  }

  /** The player request carries the challenge the server handed out. */
  lemma ChallengeEchoed(prefix: seq<byte>, challenge: seq<byte>)
    requires |prefix| == 4 && |challenge| == 4
    ensures |ChallengeReply(prefix, challenge)| == 9 && ChallengeReply(prefix, challenge)[4] == ChallengeType
    ensures PlayerRequest(ChallengeReply(prefix, challenge)) == Prefix + [PlayerRequestType] + challenge
  {
    assert ChallengeReply(prefix, challenge)[5..9] == challenge;
  }

  /** A server that hands out a challenge and answers the request carrying
      it with a well-formed player reply is reported with exactly the
      players it wrote, in order. For the challenge 00 00 00 00 the player
      request is the probe itself, and an exchange function gives both the
      same answer, so the two requirements cannot hold together. */
  lemma PlayersAnswers(network: Network, prefix: seq<byte>, challenge: seq<byte>,
                       replyPrefix: seq<byte>, ws: seq<PlayerReply.PlayerWire>)
    requires |prefix| == 4 && |challenge| == 4 && |replyPrefix| == 4 && |ws| < 0x100
    requires forall k | 0 <= k < |ws| :: PlayerReply.WellFormedPlayer(ws[k])
    requires network(ChallengeProbe) == Received(ChallengeReply(prefix, challenge))
    requires network(Prefix + [PlayerRequestType] + challenge) == Received(PlayerReply.Encode(replyPrefix, ws))
    ensures PlayersQuery(network) == Record(PlayerReply.PlayersOf(ws))
  {
    ChallengeEchoed(prefix, challenge);
    PlayerReply.DecodeEncode(replyPrefix, ws);
    assert PlayersQuery(network) == PlayerReply.Decode(PlayerReply.Encode(replyPrefix, ws));
  }
}
