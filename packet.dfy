/** Request framing: the class Packet, whose outputAsBytes wraps its text
    payload in the four 0xFF bytes every Source Engine Query datagram starts
    with and a trailing zero, or produces the bare challenge request when
    the payload is empty. */
module PacketCodec {
  import opened Wire

  /** The four 0xFF bytes in front of every request and reply. */
  const Prefix: seq<byte> := [0xFF, 0xFF, 0xFF, 0xFF]

  /** The byte that follows the prefix when the payload is empty: 'W'. */
  const EmptyRequest: byte := 0x57

  /** The payload of the server information query. */
  const InfoQueryText: string := "TSource Engine Query"

  /** Only 7-bit characters, each of which is one byte in every text encoding
      the source could use. */
  predicate IsAscii(s: string) {
    forall k | 0 <= k < |s| :: s[k] as int < 0x80
  }

  /** The bytes of an ASCII string, one per character. */
  function AsciiBytes(s: string): (b: seq<byte>)
    requires IsAscii(s)
    ensures |b| == |s|
    ensures forall k | 0 <= k < |s| :: b[k] as int == s[k] as int
  {
    seq(|s|, k requires 0 <= k < |s| => s[k] as int as byte)
  }

  /** The datagram for a payload: the prefix, the payload and a zero byte;
      or, for no payload, the prefix and 'W'. */
  function Frame(data: seq<byte>): (f: seq<byte>)
    ensures |f| >= 5 && f[..4] == Prefix
    ensures |data| > 0 ==> |f| == |data| + 5 && f[4..|data| + 4] == data && f[|data| + 4] == 0
    ensures |data| == 0 ==> |f| == 5 && f[4] == EmptyRequest
  {
    if |data| > 0 then Prefix + data + [0] else Prefix + [EmptyRequest]
  }

  class Packet {
    /** Declared by the source and never read by outputAsBytes. */
    var RequestId: int32
    var Data: string

    constructor()
      ensures RequestId == 0 && Data == ""
    {
      RequestId := 0;
      Data := "";
    }

    /** The array is allocated zeroed, the prefix bytes are written one at
        a time, and the payload is copied in behind them; the last byte of
        a non-empty request is never written and stays zero. */
    method OutputAsBytes() returns (bytes: array<byte>)
      requires IsAscii(Data)
      ensures fresh(bytes)
      ensures bytes[..] == Frame(AsciiBytes(Data))
    {
      if |Data| > 0 {
        bytes := new byte[|Data| + 5](_ => 0);
        bytes[0] := 0xFF;
        bytes[1] := 0xFF;
        bytes[2] := 0xFF;
        bytes[3] := 0xFF;
        var payload := AsciiBytes(Data);
        assert bytes[..4] == Prefix && bytes[4 + |payload|..] == [0];
        CopyInto(payload, bytes, 4);
      } else {
        bytes := new byte[5];
        bytes[0] := 0xFF;
        bytes[1] := 0xFF;
        bytes[2] := 0xFF;
        bytes[3] := 0xFF;
        bytes[4] := EmptyRequest;
      }
    }
  }

  /** Array.Copy of a whole source into the destination at offset `at`:
      the bytes before and after the copied range keep their values. */
  method CopyInto(src: seq<byte>, dst: array<byte>, at: nat)
    requires at + |src| <= dst.Length
    modifies dst
    ensures dst[..] == old(dst[..at]) + src + old(dst[at + |src|..])
  {
    for k := 0 to |src|
      invariant dst[..at] == old(dst[..at])
      invariant dst[at..at + k] == src[..k]
      invariant dst[at + k..] == old(dst[at + k..])
    {
      dst[at + k] := src[k];
      assert dst[at + k + 1..] == old(dst[at + k + 1..]);
    }
    assert dst[..] == dst[..at] + dst[at..at + |src|] + dst[at + |src|..];
  }

  /** Dropping the prefix and reading up to the first zero gives the
      payload back, with nothing after it, when the payload holds no zero. */
  lemma FrameRoundTrip(data: seq<byte>)
    requires |data| > 0 && 0 !in data
    ensures CString(Frame(data)[4..]) == Some(Parsed(data, []))
  {
    assert Frame(data)[4..] == Terminated(data) + [];
    CStringRoundTrip(data, []);
  }

  /** The same for a payload given as text. */
  lemma TextRoundTrip(s: string)
    requires IsAscii(s) && |s| > 0
    requires forall k | 0 <= k < |s| :: s[k] != '\0'
    ensures CString(Frame(AsciiBytes(s))[4..]) == Some(Parsed(AsciiBytes(s), []))
  {
    var b := AsciiBytes(s);
    assert 0 !in b by {
      forall k | 0 <= k < |b|
        ensures b[k] != 0
      {
        assert b[k] as int == s[k] as int;
      }
    }
    FrameRoundTrip(b);
  }

  /** The server information query is 25 bytes: the prefix, 'T' and the
      rest of the text, and a zero; reading the text back stops at that zero. */
  lemma InfoQueryFrame()
    ensures IsAscii(InfoQueryText)
    ensures var f := Frame(AsciiBytes(InfoQueryText));
      |f| == 25 && f[..5] == Prefix + [0x54] && f[24] == 0
    ensures CString(Frame(AsciiBytes(InfoQueryText))[4..]) == Some(Parsed(AsciiBytes(InfoQueryText), []))
  {
    assert IsAscii(InfoQueryText);
    TextRoundTrip(InfoQueryText);
    var f := Frame(AsciiBytes(InfoQueryText));
    assert f[4] as int == 'T' as int;
    assert f[..5] == f[..4] + [f[4]];
  }
}
