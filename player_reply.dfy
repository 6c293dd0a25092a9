/** The A2S_PLAYER reply: a count byte and that many player records. The
    layout as a specification (Decode), the counted loop of SSQL.Players
    (DecodePlayers) proved equal to it, a writer for the layout and the
    properties that tie them together. */
module PlayerReply {
  import opened Wire
  import opened Records

  /** Byte 4 of a player reply: 'D'. */
  const PlayerType: byte := 0x44

  // ---------------------------------------------------------------------
  // The layout
  // ---------------------------------------------------------------------

  /** The connection time as the decoder computes it: the little-endian
      16-bit value of the two bytes at offsets 5 and 6 after the name's
      terminator. */
  function TimeOf(lo: byte, hi: byte): (time: uint16)
    ensures time as int % 0x100 == lo as int && time as int / 0x100 == hi as int
  {
    lo as int + 0x100 * hi as int
  }

  /** One player record: an index byte, a zero-terminated name, then the
      fixed-size statistics. */
  function PlayerRecord(t: seq<byte>): (r: Option<Parsed<PlayerInfo>>)
    ensures r.Some? ==> |r.value.rest| + 9 <= |t|
  {
    var index :- ReadByte(t);
    var name :- CString(index.rest);
    Stats(index.value, name.value, name.rest)
  }

  /** From the name's terminator on: the kills (signed 32 bits) in bytes 0
      to 3 and the time in bytes 5 and 6. The cursor then moves 8 bytes on;
      bytes 4 and 7 are never read, so only 7 bytes must be there. */
  function Stats(index: byte, name: seq<byte>, u: seq<byte>): (r: Option<Parsed<PlayerInfo>>)
    ensures r.Some? <==> |u| >= 7
    ensures r.Some? ==> r.value.value.Index == index && r.value.value.Name == name
  {
    if |u| < 7 then None
    else Some(Parsed(PlayerInfo(index, name, Int32Of(u[..4]), TimeOf(u[5], u[6])), Drop(u, 8)))
  }

  /** Where a record's fields sit, with `k` the offset just past the name's
      terminator: the index at 0, the name from 1 up to its terminator, the
      kills at k to k + 3, the time at k + 5 and k + 6; a record needs
      k + 7 bytes, and the next one starts at k + 8. */
  lemma PlayerLayout(t: seq<byte>)
    requires PlayerRecord(t).Some?
    ensures var p := PlayerRecord(t).value.value; var k := |p.Name| + 2;
      && |t| >= k + 7
      && t[0] == p.Index && t[1..k - 1] == p.Name && t[k - 1] == 0 && 0 !in p.Name
      && p.Kills == Int32Of(t[k..k + 4])
      && p.Time == TimeOf(t[k + 5], t[k + 6])
      && PlayerRecord(t).value.rest == Drop(t, k + 8)
  {
    var x := ReadByte(t).value;
    var a := CString(x.rest).value.value;
    var u := CString(x.rest).value.rest;
    var k := |a| + 2;
    assert PlayerRecord(t) == Stats(x.value, a, u);
    Split(x.rest, a, u);
    assert t[1..] == x.rest;
    assert t[1..k - 1] == a by { assert t[1..k - 1] == x.rest[..|a|]; }
    assert t[k..] == u by { assert t[k..] == x.rest[|a| + 1..]; }
    assert t[k..k + 4] == u[..4];
  }

  /** Where the parts of `[x] + a + [0] + u` sit. */
  lemma Split(rest: seq<byte>, a: seq<byte>, u: seq<byte>)
    requires rest == a + [0] + u
    ensures rest[..|a|] == a && rest[|a|] == 0 && rest[|a| + 1..] == u
  {
  }

  /** The statistics read at cursor `j` of a buffer. */
  lemma StatsAt(buf: seq<byte>, j: nat, index: byte, name: seq<byte>)
    requires j <= |buf|
    ensures Stats(index, name, buf[j..])
         == if |buf| < j + 7 then None
            else Some(Parsed(PlayerInfo(index, name, Int32Of(buf[j..j + 4]), TimeOf(buf[j + 5], buf[j + 6])),
                             Drop(buf, j + 8)))
  {
    if |buf| >= j + 7 {
      assert buf[j..][..4] == buf[j..j + 4];
    }
  }

  /** `n` player records one after the other, in wire order. */
  function PlayerList(t: seq<byte>, n: nat): (r: Option<Parsed<seq<PlayerInfo>>>)
    ensures r.Some? ==> |r.value.value| == n
    decreases n
  {
    if n == 0 then Some(Parsed([], t))
    else
      var first :- PlayerRecord(t);
      var more :- PlayerList(first.rest, n - 1);
      Some(Parsed([first.value] + more.value, more.rest))
  }

  /** The whole reply. Bytes 0 to 3 are skipped unchecked; byte 4 must be
      'D', else the reply is not a player reply; byte 5 is the number of
      records that follow. Anything after the last record is ignored. */
  function Decode(buf: seq<byte>): (r: Reply<seq<PlayerInfo>>)
    ensures r != Unreachable
    ensures r.Record? ==> |buf| >= 6 && buf[4] == PlayerType && |r.value| == buf[5] as int
  {
    if |buf| < 5 then Malformed
    else if buf[4] != PlayerType then NotThisReply
    else if |buf| < 6 then Malformed
    else match PlayerList(buf[6..], buf[5] as nat)
      case None => Malformed
      case Some(p) => Record(p.value)
  }

  /** The decoder never reports an unreachable server; it answers "not a
      player reply" exactly when byte 4 is not 'D', and a list holds exactly
      as many players as byte 5 says. */
  lemma DecodeOutcomes(buf: seq<byte>)
    ensures Decode(buf) != Unreachable
    ensures Decode(buf) == NotThisReply <==> |buf| >= 5 && buf[4] != PlayerType
    ensures Decode(buf).Record? ==> |buf| >= 6 && buf[4] == PlayerType && |Decode(buf).value| == buf[5] as int
  {
  }

  // ---------------------------------------------------------------------
  // The counted loop of SSQL.Players
  // ---------------------------------------------------------------------

  /** `ps` in front of the players of a parse, if there is one. */
  function Prepend(ps: seq<PlayerInfo>, o: Option<Parsed<seq<PlayerInfo>>>): Option<Parsed<seq<PlayerInfo>>> {
    match o
    case None => None
    case Some(p) => Some(Parsed(ps + p.value, p.rest))
  }

  /** Reading `n` records is reading the first one and then `n - 1` more. */
  lemma ListStep(t: seq<byte>, n: nat)
    requires n > 0
    ensures PlayerRecord(t).None? ==> PlayerList(t, n).None?
    ensures PlayerRecord(t).Some? ==>
      PlayerList(t, n) == Prepend([PlayerRecord(t).value.value], PlayerList(PlayerRecord(t).value.rest, n - 1))
  {
  }

  lemma PrependNothing(o: Option<Parsed<seq<PlayerInfo>>>)
    ensures Prepend([], o) == o
  {
    if o.Some? {
      assert [] + o.value.value == o.value.value;
    }
  }

  lemma PrependTwice(ps: seq<PlayerInfo>, p: PlayerInfo, o: Option<Parsed<seq<PlayerInfo>>>)
    ensures Prepend(ps, Prepend([p], o)) == Prepend(ps + [p], o)
  {
    if o.Some? {
      assert ps + ([p] + o.value.value) == (ps + [p]) + o.value.value;
    }
  }

  /** A round of the loop either fails, failing the whole list, or moves
      one record from the input to the players read so far. */
  lemma LoopStep(ps: seq<PlayerInfo>, t: seq<byte>, m: nat)
    requires m > 0
    ensures PlayerRecord(t).None? ==> Prepend(ps, PlayerList(t, m)).None?
    ensures PlayerRecord(t).Some? ==>
      Prepend(ps, PlayerList(t, m))
      == Prepend(ps + [PlayerRecord(t).value.value], PlayerList(PlayerRecord(t).value.rest, m - 1))
  {
    ListStep(t, m);
    if PlayerRecord(t).Some? {
      PrependTwice(ps, PlayerRecord(t).value.value, PlayerList(PlayerRecord(t).value.rest, m - 1));
    }
  }

  /** A record read at cursor `i` of a buffer: the index byte there, then
      the name from `i + 1`, then the statistics. */
  lemma PlayerAt(buf: seq<byte>, i: nat)
    requires i < |buf|
    ensures PlayerRecord(Drop(buf, i))
         == match CString(buf[i + 1..])
            case None => None
            case Some(name) => Stats(buf[i], name.value, name.rest)
  {
    assert ReadByte(Drop(buf, i)) == Some(Parsed(buf[i], buf[i + 1..]));
  }

  /** One iteration of the loop: the index byte, the name loop, then the
      statistics. Every read is preceded by a check that the byte is there. */
  method ReadPlayer(buf: seq<byte>, i: nat) returns (found: bool, player: PlayerInfo, next: nat)
    ensures found <==> PlayerRecord(Drop(buf, i)).Some?
    ensures found ==> PlayerRecord(Drop(buf, i)) == Some(Parsed(player, Drop(buf, next)))
  {
    player, next := PlayerInfo(0, [], 0, 0), i;
    if |buf| <= i { return false, player, next; }
    PlayerAt(buf, i);
    var index := buf[i];
    var name;
    found, name, next := ReadCString(buf, i + 1);
    if found {
      found, player, next := ReadStats(buf, next, index, name);
    }
  }

  /** The kills at the cursor, `i += 5`, the time at the cursor, `i += 3`. */
  method ReadStats(buf: seq<byte>, j: nat, index: byte, name: seq<byte>) returns (found: bool, player: PlayerInfo, next: nat)
    requires j <= |buf|
    ensures found <==> Stats(index, name, buf[j..]).Some?
    ensures found ==> Stats(index, name, buf[j..]) == Some(Parsed(player, Drop(buf, next)))
  {
    StatsAt(buf, j, index, name);
    player, next := PlayerInfo(0, [], 0, 0), j;
    if |buf| < next + 7 { return false, player, next; }
    var kills := Int32Of(buf[next..next + 4]);
    next := next + 5;
    var time := TimeOf(buf[next], buf[next + 1]);
    next := next + 3;
    return true, PlayerInfo(index, name, kills, time), next;
  }

  /** The counted loop: `n` rounds, each appending one record, stopping
      with a failure as soon as a record runs past the end of the buffer. */
  method ReadPlayers(buf: seq<byte>, start: nat, n: nat) returns (found: bool, players: seq<PlayerInfo>)
    ensures found <==> PlayerList(Drop(buf, start), n).Some?
    ensures found ==> players == PlayerList(Drop(buf, start), n).value.value
  {
    var i := start;
    players := [];
    ghost var all := PlayerList(Drop(buf, start), n);
    PrependNothing(all);
    for ii := 0 to n
      invariant |players| == ii
      invariant all == Prepend(players, PlayerList(Drop(buf, i), n - ii))
    {
      var player, next;
      found, player, next := ReadPlayer(buf, i);
      LoopStep(players, Drop(buf, i), n - ii);
      if !found { return; }
      players := players + [player];
      i := next;
    }
    assert players + [] == players;
    return true, players;
  }

  /** The decoding half of SSQL.Players(IPEndPoint): byte 4 must be 'D',
      byte 5 is the count, and a counted loop appends one record per round. */
  method DecodePlayers(buf: seq<byte>) returns (r: Reply<seq<PlayerInfo>>)
    ensures r == Decode(buf)
  {
    var i: nat := 4;
    if |buf| <= i { return Malformed; }
    if buf[i] != PlayerType { return NotThisReply; }
    i := i + 1;
    if |buf| <= i { return Malformed; }
    var numPlayers := buf[i];
    i := i + 1;
    var found, players := ReadPlayers(buf, i, numPlayers as nat);
    if !found { return Malformed; }
    return Record(players);
  }

  // ---------------------------------------------------------------------
  // Writing a reply
  // ---------------------------------------------------------------------

  /** The four bytes of a single-precision float, lowest first. */
  datatype FloatBytes = FloatBytes(b0: byte, b1: byte, b2: byte, b3: byte)

  /** A player as a server sends it: the duration is a float, which the
      decoder does not read as one. */
  datatype PlayerWire = PlayerWire(index: byte, name: seq<byte>, score: int32, duration: FloatBytes)

  predicate WellFormedPlayer(w: PlayerWire) {
    0 !in w.name
  }

  function EncodePlayer(w: PlayerWire): seq<byte> {
    [w.index] + Terminated(w.name) + Int32Bytes(w.score) + [w.duration.b0, w.duration.b1, w.duration.b2, w.duration.b3]
  }

  function EncodePlayers(ws: seq<PlayerWire>): seq<byte> {
    if ws == [] then [] else EncodePlayer(ws[0]) + EncodePlayers(ws[1..])
  }

  /** A reply carrying `ws`, behind a 4-byte prefix the decoder ignores. */
  function Encode(prefix: seq<byte>, ws: seq<PlayerWire>): seq<byte>
    requires |ws| < 0x100
  {
    prefix + [PlayerType, |ws| as byte] + EncodePlayers(ws)
  }

  /** What the decoder makes of one written player. */
  function PlayerOf(w: PlayerWire): PlayerInfo {
    PlayerInfo(w.index, w.name, w.score, TimeOf(w.duration.b1, w.duration.b2))
  }

  function PlayersOf(ws: seq<PlayerWire>): (ps: seq<PlayerInfo>)
    ensures |ps| == |ws|
  {
    if ws == [] then [] else [PlayerOf(ws[0])] + PlayersOf(ws[1..])
  }

  // ---------------------------------------------------------------------
  // Round trips
  // ---------------------------------------------------------------------

  /** A written record reads back as its index, name and score, with the
      middle two bytes of the duration as the time, and the cursor stops
      exactly at the end of the record. */
  lemma PlayerRoundTrip(w: PlayerWire, rest: seq<byte>)
    requires WellFormedPlayer(w)
    ensures PlayerRecord(EncodePlayer(w) + rest) == Some(Parsed(PlayerOf(w), rest))
  {
    var d := [w.duration.b0, w.duration.b1, w.duration.b2, w.duration.b3];
    var u := Int32Bytes(w.score) + d + rest;
    assert EncodePlayer(w) + rest == [w.index] + (Terminated(w.name) + u);
    CStringRoundTrip(w.name, u);
    assert u[..4] == Int32Bytes(w.score);
    assert u[5] == w.duration.b1 && u[6] == w.duration.b2;
    assert Drop(u, 8) == rest;
  }

  /** Written records read back in order, each exactly once. */
  lemma {:induction false} ListRoundTrip(ws: seq<PlayerWire>, rest: seq<byte>)
    requires forall k | 0 <= k < |ws| :: WellFormedPlayer(ws[k])
    ensures PlayerList(EncodePlayers(ws) + rest, |ws|) == Some(Parsed(PlayersOf(ws), rest))
  {
    if ws != [] {
      var tail := EncodePlayers(ws[1..]) + rest;
      assert EncodePlayers(ws) + rest == EncodePlayer(ws[0]) + tail;
      PlayerRoundTrip(ws[0], tail);
      ListRoundTrip(ws[1..], rest);
      ListStep(EncodePlayers(ws) + rest, |ws|);
      assert PlayersOf(ws) == [PlayerOf(ws[0])] + PlayersOf(ws[1..]);
    } else {
      assert EncodePlayers(ws) + rest == rest;
    }
  }

  /** A well-formed reply decodes to exactly the players it was written from. */
  lemma DecodeEncode(prefix: seq<byte>, ws: seq<PlayerWire>)
    requires |prefix| == 4 && |ws| < 0x100
    requires forall k | 0 <= k < |ws| :: WellFormedPlayer(ws[k])
    ensures Decode(Encode(prefix, ws)) == Record(PlayersOf(ws))
  {
    var buf := Encode(prefix, ws);
    assert buf[6..] == EncodePlayers(ws) + [];
    ListRoundTrip(ws, []);
  }

  /** The time is not the duration: a one-second and a two-second player,
      whose durations are the floats 1.0 and 2.0, get the times 32768 and 0. */
  lemma TimeIsNotDuration()
    ensures PlayerOf(PlayerWire(0, [], 0, FloatBytes(0x00, 0x00, 0x80, 0x3F))).Time == 32768
    ensures PlayerOf(PlayerWire(0, [], 0, FloatBytes(0x00, 0x00, 0x00, 0x40))).Time == 0
  {
  }

  // ---------------------------------------------------------------------
  // Trailing bytes and the receive buffer
  // ---------------------------------------------------------------------

  lemma PlayerRecordExtend(t: seq<byte>, z: seq<byte>)
    requires PlayerRecord(t).Some?
    ensures PlayerRecord(t + z).Some? && PlayerRecord(t + z).value.value == PlayerRecord(t).value.value
    ensures |PlayerRecord(t).value.rest| > 0 ==> PlayerRecord(t + z).value.rest == PlayerRecord(t).value.rest + z
  {
    var index := ReadByte(t).value;
    ReadByteExtend(t, z);
    var name := CString(index.rest).value;
    CStringExtend(index.rest, z);
    StatsExtend(index.value, name.value, name.rest, z);
  }

  lemma StatsExtend(index: byte, name: seq<byte>, u: seq<byte>, z: seq<byte>)
    requires Stats(index, name, u).Some?
    ensures Stats(index, name, u + z).Some? && Stats(index, name, u + z).value.value == Stats(index, name, u).value.value
    ensures |Stats(index, name, u).value.rest| > 0 ==> Stats(index, name, u + z).value.rest == Stats(index, name, u).value.rest + z
  {
    assert (u + z)[..4] == u[..4];
    if |u| > 8 {
      assert (u + z)[8..] == u[8..] + z;
    }
  }

  /** Bytes after the last record change no player: a decoded list stays
      the same however the reply is extended. */
  lemma {:induction false} ListExtend(t: seq<byte>, n: nat, z: seq<byte>)
    requires PlayerList(t, n).Some?
    ensures PlayerList(t + z, n).Some? && PlayerList(t + z, n).value.value == PlayerList(t, n).value.value
    decreases n
  {
    if n > 0 {
      var first := PlayerRecord(t).value;
      PlayerRecordExtend(t, z);
      var first' := PlayerRecord(t + z).value;
      ListStep(t, n);
      ListStep(t + z, n);
      var more := PlayerList(first.rest, n - 1);
      var more' := PlayerList(first'.rest, n - 1);
      if n > 1 {
        // A further record needs at least one byte, so the first one did not run out.
        assert |first.rest| > 0;
        assert first'.rest == first.rest + z;
        ListExtend(first.rest, n - 1, z);
      }
      assert more'.Some? && more'.value.value == more.value.value;
    }
  }

  /** Whenever the datagram alone decodes to a list or is recognised as
      another kind of reply, decoding the zero-padded receive buffer gives
      the same answer. */
  lemma PaddedAgrees(d: seq<byte>)
    requires |d| <= BufferSize && Decode(d) != Malformed
    ensures Decode(Padded(d)) == Decode(d)
  {
    var zeros: seq<byte> := seq(BufferSize - |d|, _ => 0);
    var p := Padded(d);
    assert p == d + zeros;
    if Decode(d).Record? {
      assert p[6..] == d[6..] + zeros;
      ListExtend(d[6..], d[5] as nat, zeros);
    }
  }
}
