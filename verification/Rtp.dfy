/** Bytes as the integers 0 to 255, and big-endian numbers. */
module Bytes {
  newtype byte = n: int | 0 <= n < 256

  const U16: nat := 0x1_0000
  const U32: nat := 0x1_0000_0000

  /** A size converted to a 32-bit int. */
  function ToInt(n: nat): (r: int)
    ensures n < 0x8000_0000 ==> r == n
  {
    if n % U32 < 0x8000_0000 then n % U32 else n % U32 - U32
  }

  function Low(n: nat): byte {
    (n % 256) as byte
  }

  function Put16(n: nat): seq<byte> {
    [Low(n / 256), Low(n)]
  }

  function Get16(b: seq<byte>): nat
    requires |b| >= 2
  {
    b[0] as nat * 256 + b[1] as nat
  }

  function Put32(n: nat): seq<byte> {
    Put16(n / U16) + Put16(n % U16)
  }

  function Get32(b: seq<byte>): nat
    requires |b| >= 4
  {
    Get16(b[..2]) * U16 + Get16(b[2..])
  }

  lemma {:induction false} Get16Put16(n: nat)
    requires n < U16
    ensures Get16(Put16(n)) == n
  {
  }

  lemma {:induction false} Get32Put32(n: nat)
    requires n < U32
    ensures Get32(Put32(n)) == n
  {
    Get16Put16(n / U16);
    Get16Put16(n % U16);
    assert Put32(n)[..2] == Put16(n / U16) && Put32(n)[2..] == Put16(n % U16);
  }
}

/**
 The receiving side, written from the standards and not from the encoder:
 interleaved framing (RFC 2326, section 10.12), the RTP header (RFC 3550,
 section 5.1), and H.264 payloads (RFC 6184, sections 5.6, 5.7.1 and 5.8).
 */
module RtpReceiver {
  import opened Bytes
  import opened Options

  datatype RtpPacket =
    RtpPacket(mark: bool, payloadType: nat, seqNo: nat, timestamp: nat, ssrc: nat, payload: seq<byte>)

  datatype Frame = Frame(channel: byte, data: seq<byte>)

  /** The interleaved frames of a byte stream, if it consists of whole frames. */
  function ParseInterleaved(b: seq<byte>): Option<seq<Frame>>
    decreases |b|
  {
    if b == [] then Some([])
    else if |b| < 4 || b[0] != '$' as byte then None
    else
      var n := 4 + Get16(b[2..4]);
      if |b| < n then None
      else
        match ParseInterleaved(b[n..])
        case None => None
        case Some(rest) => Some([Frame(b[1], b[4..n])] + rest)
  }

  /** An RTP packet without padding or header extension. */
  function ParseRtp(b: seq<byte>): Option<RtpPacket> {
    if |b| < 12 || b[0] / 64 != 2 || b[0] / 16 % 4 != 0 then None
    else
      var n := 12 + 4 * (b[0] % 16) as nat;
      if |b| < n then None
      else
        Some(RtpPacket(b[1] / 128 == 1, (b[1] % 128) as nat, Get16(b[2..4]), Get32(b[4..8]), Get32(b[8..12]), b[n..]))
  }

  /** The NAL units received so far, and the one being put together from fragments. */
  datatype Reception = Reception(pending: Option<seq<byte>>, nals: seq<seq<byte>>) | Malformed

  /** The NAL units of an aggregation packet, each after its 16-bit size. */
  function ParseUnits(b: seq<byte>): Option<seq<seq<byte>>>
    decreases |b|
  {
    if b == [] then Some([])
    else if |b| < 2 then None
    else
      var n := 2 + Get16(b[..2]);
      if |b| < n then None
      else
        match ParseUnits(b[n..])
        case None => None
        case Some(rest) => Some([b[2..n]] + rest)
  }

  function Receive(r: Reception, payload: seq<byte>): Reception {
    if r.Malformed? || payload == [] then Malformed
    else
      var kind := payload[0] % 32;
      if kind == 28 then
        if |payload| < 2 then Malformed
        else
          var start, end := payload[1] / 128 == 1, payload[1] / 64 % 2 == 1;
          var header := payload[0] / 32 * 32 + payload[1] % 32;
          if start == r.pending.Some? || (start && end) then Malformed
          else
            var nal := (if start then [header] else r.pending.value) + payload[2..];
            if end then Reception(None, r.nals + [nal]) else r.(pending := Some(nal))
      else if r.pending.Some? then Malformed
      else if kind == 24 then
        match ParseUnits(payload[1..])
        case Some(nals) => r.(nals := r.nals + nals)
        case None => Malformed
      else if 1 <= kind <= 23 then r.(nals := r.nals + [payload])
      else Malformed
  }

  function ReceiveAll(r: Reception, payloads: seq<seq<byte>>): Reception
    decreases |payloads|
  {
    if payloads == [] then r else ReceiveAll(Receive(r, payloads[0]), payloads[1..])
  }

  lemma {:induction false} ReceiveAllConcat(r: Reception, a: seq<seq<byte>>, b: seq<seq<byte>>)
    ensures ReceiveAll(r, a + b) == ReceiveAll(ReceiveAll(r, a), b)
    decreases |a|
  {
    if a == [] {
      assert a + b == b;
    } else {
      assert (a + b)[1..] == a[1..] + b;
      ReceiveAllConcat(Receive(r, a[0]), a[1..], b);
    }
  }
}
