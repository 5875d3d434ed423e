/**
 H264RtpEncoder: holds one frame back to know its marker, inserts the parameter
 sets before key frames, and numbers the packets it sends.
 */
module H264Encoder {
  import opened Bytes
  import opened RtpReceiver
  import opened H264Packets
  import opened Options
  import opened Sequences
  import Avc

  // ---- NAL units

  const NAL_B_P: byte := 1
  const NAL_IDR: byte := 5
  const NAL_SEI: byte := 6
  const NAL_SPS: byte := 7
  const NAL_PPS: byte := 8
  const NAL_AUD: byte := 9

  datatype Nalu = Nalu(buffer: seq<byte>, pts: nat) {
    function NalType(): (t: byte)
      ensures t as nat == Avc.UnitType(buffer)
    {
      HeaderByte(buffer) % 32
    }

    predicate DropAble() {
      NalType() == NAL_SEI || NalType() == NAL_AUD
    }

    /** A slice whose first macroblock number is coded as zero: the first of a picture. */
    predicate DecodeAble() {
      NAL_B_P <= NalType() <= NAL_IDR && |buffer| > 1 && buffer[1] >= 128
    }

    predicate KeyFrame() {
      NalType() == NAL_IDR && DecodeAble()
    }
  }

  /**
   The tests of the code, in the terms of the standard: a unit is dropped if it is
   enhancement information or a delimiter; it moves the clock if it is a slice with
   first_mb_in_slice 0; and it is a key frame if it is one of an IDR picture.
   */
  lemma {:induction false} TestsExactly(x: Nalu)
    ensures x.DropAble() <==> Avc.UnitType(x.buffer) in {6, 9}
    ensures x.DecodeAble() <==> 1 <= Avc.UnitType(x.buffer) <= 5 && Avc.FirstMb(x.buffer) == Some(0)
    ensures x.KeyFrame() <==> Avc.UnitType(x.buffer) == 5 && Avc.FirstMb(x.buffer) == Some(0)
  {
    Avc.FirstMbIsZero(x.buffer);
  }

  /** Neither a parameter set nor dropped: by the standard, not enhancement information nor a delimiter. */
  predicate IsFrame(nal: seq<byte>) {
    Avc.UnitType(nal) !in {6, 7, 8, 9}
  }

  // ---- What is to be sent, in terms of everything fed so far

  /** One unit to be sent. */
  datatype Unit = Unit(data: seq<byte>, pts: nat, mark: bool, config: bool)

  /** The latest unit of a type. */
  function Latest(xs: seq<Nalu>, t: byte): Option<Nalu> {
    if xs == [] then None
    else if Avc.UnitType(xs[|xs| - 1].buffer) == t as nat then Some(xs[|xs| - 1])
    else Latest(xs[..|xs| - 1], t)
  }

  /** The frames, in order. */
  function Frames(xs: seq<Nalu>): seq<Nalu> {
    if xs == [] then []
    else Frames(xs[..|xs| - 1]) + (if IsFrame(xs[|xs| - 1].buffer) then [xs[|xs| - 1]] else [])
  }

  /** The frame held back. */
  function Held(xs: seq<Nalu>): Option<Nalu> {
    var frames := Frames(xs);
    if frames == [] then None else Some(frames[|frames| - 1])
  }

  /** `n` bytes read from where `b` is stored; `beyond` is what happens to be stored after it. */
  function ReadBytes(b: seq<byte>, n: nat, beyond: nat -> byte): seq<byte> {
    if n <= |b| then b[..n] else b + seq(n - |b|, (i: nat) => beyond(i))
  }

  /** The byte behind those. */
  function ByteBehind(b: seq<byte>, n: nat, beyond: nat -> byte): byte {
    if n < |b| then b[n] else beyond(n - |b|)
  }

  /** The parameter sets sent before a key frame, once both are known. */
  function ConfigUnits(sps: Option<Nalu>, pps: Option<Nalu>, pts: nat, beyond: nat -> byte): seq<Unit> {
    if sps.None? || pps.None? then []
    else
      var n := |sps.value.buffer|;
      [Unit(sps.value.buffer, pts, false, true), Unit(ReadBytes(pps.value.buffer, n, beyond), pts, false, true)]
  }

  /** The parameter sets sent before a frame. */
  function ConfigBefore(f: Nalu, sps: Option<Nalu>, pps: Option<Nalu>, beyond: nat -> byte): seq<Unit> {
    if f.KeyFrame() then ConfigUnits(sps, pps, f.pts, beyond) else []
  }

  /** What is sent when a frame is released with the parameter sets held at that time. */
  function Release(f: Nalu, mark: bool, sps: Option<Nalu>, pps: Option<Nalu>, beyond: nat -> byte): seq<Unit> {
    ConfigBefore(f, sps, pps, beyond) + [Unit(f.buffer, f.pts, mark, false)]
  }

  /** Everything to be sent after `xs` has been fed: a frame is released by the next one. */
  function Units(xs: seq<Nalu>, beyond: nat -> byte): seq<Unit> {
    if xs == [] then []
    else
      var before, x := xs[..|xs| - 1], xs[|xs| - 1];
      Units(before, beyond) +
      if IsFrame(x.buffer) && Held(before).Some? then
        var f := Held(before).value;
        Release(f, f.pts != x.pts, Latest(before, NAL_SPS), Latest(before, NAL_PPS), beyond)
      else
        []
  }

  // ---- The same, step by step

  /** What the encoder remembers, and what it has sent. */
  datatype EncoderState = EncoderState(sps: Option<Nalu>, pps: Option<Nalu>, last: Option<Nalu>, units: seq<Unit>)

  /** What a unit fed releases. */
  function Due(s: EncoderState, x: Nalu, beyond: nat -> byte): seq<Unit> {
    if IsFrame(x.buffer) && s.last.Some?
    then Release(s.last.value, s.last.value.pts != x.pts, s.sps, s.pps, beyond)
    else []
  }

  function Feed(s: EncoderState, x: Nalu, beyond: nat -> byte): EncoderState {
    if x.NalType() == NAL_SPS then s.(sps := Some(x))
    else if x.NalType() == NAL_PPS then s.(pps := Some(x))
    else if x.DropAble() then s
    else s.(last := Some(x), units := s.units + Due(s, x, beyond))
  }

  function After(xs: seq<Nalu>, beyond: nat -> byte): EncoderState {
    if xs == [] then EncoderState(None, None, None, [])
    else Feed(After(xs[..|xs| - 1], beyond), xs[|xs| - 1], beyond)
  }

  lemma {:induction false} AfterOneMore(xs: seq<Nalu>, x: Nalu, beyond: nat -> byte)
    ensures After(xs + [x], beyond) == Feed(After(xs, beyond), x, beyond)
  {
    assert (xs + [x])[..|xs|] == xs;
  }

  /**
   What the encoder remembers and has sent, in terms of everything it was fed:
   the latest parameter sets, the last frame, and a release of every other frame
   with the parameter sets held when the frame after it came.
   */
  lemma {:induction false} AfterIsHistory(xs: seq<Nalu>, beyond: nat -> byte)
    ensures After(xs, beyond) == EncoderState(Latest(xs, NAL_SPS), Latest(xs, NAL_PPS), Held(xs), Units(xs, beyond))
    decreases |xs|
  {
    if xs != [] {
      var before, x := xs[..|xs| - 1], xs[|xs| - 1];
      AfterIsHistory(before, beyond);
      if !IsFrame(x.buffer) {
        assert Frames(xs) == Frames(before);
        assert Units(xs, beyond) == Units(before, beyond);
      } else {
        assert Frames(xs) == Frames(before) + [x];
      }
    }
  }

  // ---- How it is sent

  datatype Session = Session(ssrc: nat, channel: byte, payloadType: byte, mtu: nat) {
    predicate Valid() {
      ssrc < U32 && ValidMtu(mtu)
    }
  }

  /** A packet before it is numbered. */
  datatype Slot = Slot(payload: seq<byte>, mark: bool, pts: nat)

  function PieceSlots(nal: seq<byte>, pieces: seq<Piece>, mark: bool, pts: nat): seq<Slot>
    requires forall p :: p in pieces ==> p.offset + p.size <= |nal|
  {
    if pieces == [] then []
    else [Slot(FuA(nal, pieces[0]), pieces[0].end && mark, pts)] + PieceSlots(nal, pieces[1..], mark, pts)
  }

  /** The packets of a unit that can be sent. */
  function Slots(u: Unit, mtu: nat): seq<Slot> {
    if !Sendable(u.data, mtu) then []
    else if Aggregated(u.data, mtu) then [Slot(StapA(u.data), u.mark, u.pts)]
    else
      PiecesInRange(u.data, mtu);
      PieceSlots(u.data, Pieces(|u.data|, Room(mtu)).value, u.mark, u.pts)
  }

  predicate AllSendable(us: seq<Unit>, mtu: nat) {
    us == [] || (Sendable(us[0].data, mtu) && AllSendable(us[1..], mtu))
  }

  function AllSlots(us: seq<Unit>, mtu: nat): seq<Slot> {
    if us == [] then [] else Slots(us[0], mtu) + AllSlots(us[1..], mtu)
  }

  function RtpHeader(s: Session, mark: bool, seqNo: nat, pts: nat): seq<byte> {
    [128, (if mark then 128 else 0) + s.payloadType % 128] + Put16(seqNo % U16) + Put32(pts % U32) + Put32(s.ssrc % U32)
  }

  /** Everything before the payload: the interleaved prefix and the RTP header. */
  function Preamble(s: Session, len: nat, mark: bool, seqNo: nat, pts: nat): (r: seq<byte>)
    ensures |r| == 16
  {
    ['$' as byte, s.channel] + Put16((len + RTP_HEADER) % U16) + RtpHeader(s, mark, seqNo, pts)
  }

  function PacketBytes(s: Session, slot: Slot, k: nat): seq<byte> {
    Preamble(s, |slot.payload|, slot.mark, k % U16, slot.pts) + slot.payload
  }

  /** The packets for `slots`, the first of them being the `k`-th of the session. */
  function Emit(s: Session, slots: seq<Slot>, k: nat): (r: seq<seq<byte>>)
    ensures |r| == |slots|
    ensures forall i :: 0 <= i < |slots| ==> r[i] == PacketBytes(s, slots[i], k + i)
  {
    seq(|slots|, i requires 0 <= i < |slots| => PacketBytes(s, slots[i], k + i))
  }

  lemma {:induction false} AllSlotsConcat(a: seq<Unit>, b: seq<Unit>, mtu: nat)
    ensures AllSlots(a + b, mtu) == AllSlots(a, mtu) + AllSlots(b, mtu)
    ensures AllSendable(a + b, mtu) <==> AllSendable(a, mtu) && AllSendable(b, mtu)
    decreases |a|
  {
    if a == [] {
      assert a + b == b;
    } else {
      assert (a + b)[1..] == a[1..] + b;
      AllSlotsConcat(a[1..], b, mtu);
    }
  }

  lemma {:induction false} OneUnit(u: Unit, mtu: nat)
    ensures AllSlots([u], mtu) == Slots(u, mtu) && (AllSendable([u], mtu) <==> Sendable(u.data, mtu))
  {
    assert [u][1..] == [];
  }

  lemma {:induction false} TwoUnits(u: Unit, v: Unit, mtu: nat)
    ensures AllSlots([u, v], mtu) == Slots(u, mtu) + Slots(v, mtu)
    ensures AllSendable([u, v], mtu) <==> Sendable(u.data, mtu) && Sendable(v.data, mtu)
  {
    assert [u, v] == [u] + [v];
    OneUnit(u, mtu);
    OneMoreUnit([u], v, mtu);
  }

  lemma {:induction false} OneMoreUnit(us: seq<Unit>, u: Unit, mtu: nat)
    ensures AllSlots(us + [u], mtu) == AllSlots(us, mtu) + Slots(u, mtu)
    ensures AllSendable(us + [u], mtu) <==> AllSendable(us, mtu) && Sendable(u.data, mtu)
  {
    AllSlotsConcat(us, [u], mtu);
    OneUnit(u, mtu);
  }

  /** No unit fed has the one length that cannot be fragmented. */
  predicate AllFit(xs: seq<Nalu>, mtu: nat) {
    forall x :: x in xs ==> Sendable(x.buffer, mtu)
  }

  lemma {:induction false} LatestIsFed(xs: seq<Nalu>, t: byte)
    ensures Latest(xs, t).Some? ==> Latest(xs, t).value in xs
    decreases |xs|
  {
    if xs != [] {
      LatestIsFed(xs[..|xs| - 1], t);
    }
  }

  lemma {:induction false} FramesAreFed(xs: seq<Nalu>)
    ensures forall f :: f in Frames(xs) ==> f in xs && IsFrame(f.buffer)
    ensures Held(xs).Some? ==> Held(xs).value in xs
    decreases |xs|
  {
    if xs != [] {
      FramesAreFed(xs[..|xs| - 1]);
    }
  }

  /** What is due after such units can be sent, at times that are theirs. */
  lemma {:induction false} DueIsSendable(xs: seq<Nalu>, x: Nalu, beyond: nat -> byte, mtu: nat)
    ensures AllFit(xs, mtu) ==> AllSendable(Due(After(xs, beyond), x, beyond), mtu)
    ensures (forall y :: y in xs ==> y.pts < U32) ==> forall u :: u in Due(After(xs, beyond), x, beyond) ==> u.pts < U32
  {
    AfterIsHistory(xs, beyond);
    LatestIsFed(xs, NAL_SPS);
    LatestIsFed(xs, NAL_PPS);
    FramesAreFed(xs);
    var s := After(xs, beyond);
    if IsFrame(x.buffer) && s.last.Some? {
      var f := s.last.value;
      var config := ConfigBefore(f, s.sps, s.pps, beyond);
      OneMoreUnit(config, Unit(f.buffer, f.pts, f.pts != x.pts, false), mtu);
      if config != [] {
        assert config == [config[0], config[1]];
        TwoUnits(config[0], config[1], mtu);
      }
    }
  }

  lemma {:induction false} UnitsAreSendable(xs: seq<Nalu>, beyond: nat -> byte, mtu: nat)
    ensures AllFit(xs, mtu) ==> AllSendable(After(xs, beyond).units, mtu)
    ensures (forall x :: x in xs ==> x.pts < U32) ==> forall u :: u in After(xs, beyond).units ==> u.pts < U32
    decreases |xs|
  {
    if xs != [] {
      var before, x := xs[..|xs| - 1], xs[|xs| - 1];
      UnitsAreSendable(before, beyond, mtu);
      DueIsSendable(before, x, beyond, mtu);
      AllSlotsConcat(After(before, beyond).units, Due(After(before, beyond), x, beyond), mtu);
    }
  }

  method MemCpy(buf: array<byte>, at: nat, src: seq<byte>)
    requires at + |src| == buf.Length
    modifies buf
    ensures buf[..] == old(buf[..at]) + src
  {
    forall i | 0 <= i < |src| {
      buf[at + i] := src[i];
    }
  }

  /** Writes the payload of an aggregation packet after the headers. */
  method FillStapA(buf: array<byte>, nal: seq<byte>)
    requires buf.Length == 19 + |nal| && |nal| < U16
    modifies buf
    ensures buf[..] == old(buf[..16]) + StapA(nal)
  {
    buf[16] := HeaderByte(nal) / 32 * 32 + 24;
    buf[17], buf[18] := Low(|nal| / 256), Low(|nal|);
    ghost var head := [buf[16], buf[17], buf[18]];
    assert buf[..19] == old(buf[..16]) + head;
    assert StapA(nal) == head + nal;
    MemCpy(buf, 19, nal);
  }

  /** Writes the payload of a fragment after the headers. */
  method FillFuA(buf: array<byte>, nal: seq<byte>, ghost p: Piece, offset: nat, size: nat, start: bool, end: bool)
    requires p == Piece(offset, size, start, end) && offset + size <= |nal| && buf.Length == 18 + size
    modifies buf
    ensures buf[..] == old(buf[..16]) + FuA(nal, p)
  {
    buf[16] := HeaderByte(nal) / 32 * 32 + 28;
    buf[17] := (if start then 128 else 0) + (if end then 64 else 0) + HeaderByte(nal) % 32;
    ghost var head := [buf[16], buf[17]];
    assert buf[..18] == old(buf[..16]) + head;
    MemCpy(buf, 18, nal[offset..offset + size]);
  }

  lemma {:induction false} EmitOneMore(s: Session, slots: seq<Slot>, slot: Slot)
    ensures Emit(s, slots + [slot], 0) == Emit(s, slots, 0) + [PacketBytes(s, slot, |slots|)]
  {
  }

  lemma {:induction false} FirstPiece(nal: seq<byte>, pieces: seq<Piece>, mark: bool, pts: nat, done: seq<Slot>)
    requires pieces != [] && forall p :: p in pieces ==> p.offset + p.size <= |nal|
    ensures done + PieceSlots(nal, pieces, mark, pts) ==
            (done + [Slot(FuA(nal, pieces[0]), pieces[0].end && mark, pts)]) + PieceSlots(nal, pieces[1..], mark, pts)
  {
  }

  lemma {:induction false} NextNumber(n: nat)
    ensures (n % U16 + 1) % U16 == (n + 1) % U16
  {
  }

  class H264RtpEncoder {
    const session: Session
    const beyond: nat -> byte
    var sps: Option<Nalu>
    var pps: Option<Nalu>
    var lastNalu: Option<Nalu>
    var seqNo: nat
    var sent: seq<seq<byte>>     // the packets given to the send callback
    ghost var slots: seq<Slot>   // the same, before numbering
    ghost var units: seq<Unit>   // the units they carry
    ghost var fed: seq<Nalu>     // the units given to InputFrame

    /** The i-th packet of the session carries number i modulo 65536. */
    ghost predicate Numbered()
      reads this
    {
      session.Valid() && |sent| == |slots| && seqNo == |sent| % U16 && sent == Emit(session, slots, 0)
    }

    ghost function State(): EncoderState
      reads this
    {
      EncoderState(sps, pps, lastNalu, units)
    }

    ghost predicate Valid()
      reads this
    {
      && Numbered()
      && slots == AllSlots(units, session.mtu) && AllSendable(units, session.mtu)
      && State() == After(fed, beyond)
    }

    constructor (session: Session, beyond: nat -> byte)
      requires session.Valid()
      ensures Valid() && this.session == session && this.beyond == beyond
      ensures fed == [] && sent == []
    {
      this.session, this.beyond := session, beyond;
      sps, pps, lastNalu := None, None, None;
      seqNo, sent, slots, units, fed := 0, [], [], [], [];
    }

    /** A packet with its headers filled in and room for `len` bytes of payload. */
    method MakeRtp(len: nat, mark: bool, pts: nat) returns (buf: array<byte>)
      requires len + RTP_HEADER < U16
      modifies this`seqNo
      ensures fresh(buf) && buf.Length == 16 + len
      ensures buf[..16] == Preamble(session, len, mark, old(seqNo), pts)
      ensures seqNo == (old(seqNo) + 1) % U16
    {
      var size := len + RTP_HEADER;
      buf := new byte[4 + size](_ => 0);
      var preamble := Preamble(session, len, mark, seqNo, pts);
      forall i | 0 <= i < 16 {
        buf[i] := preamble[i];
      }
      seqNo := (seqNo + 1) % U16;
    }

    method Deliver(buf: array<byte>, ghost slot: Slot)
      requires session.Valid() && |sent| == |slots| && sent == Emit(session, slots, 0)
      requires seqNo == (|sent| % U16 + 1) % U16
      requires buf[..] == Preamble(session, |slot.payload|, slot.mark, |sent| % U16, slot.pts) + slot.payload
      modifies this`sent, this`slots
      ensures Numbered() && slots == old(slots) + [slot]
    {
      EmitOneMore(session, slots, slot);
      NextNumber(|sent|);
      sent := sent + [buf[..]];
      slots := slots + [slot];
    }

    /** One whole unit in one packet. */
    method PackRtpStapA(nal: seq<byte>, pts: nat, mark: bool)
      requires Numbered() && Aggregated(nal, session.mtu)
      modifies this`seqNo, this`sent, this`slots
      ensures Numbered() && slots == old(slots) + [Slot(StapA(nal), mark, pts)]
    {
      var buf := MakeRtp(|nal| + 3, mark, pts);
      FillStapA(buf, nal);
      Deliver(buf, Slot(StapA(nal), mark, pts));
    }

    method SendFragment(nal: seq<byte>, ghost p: Piece, pts: nat, mark: bool, offset: nat, size: nat, start: bool,
                        end: bool)
      requires Numbered()
      requires p == Piece(offset, size, start, end) && offset + size <= |nal| && size <= Room(session.mtu)
      modifies this`seqNo, this`sent, this`slots
      ensures Numbered() && slots == old(slots) + [Slot(FuA(nal, p), end && mark, pts)]
    {
      var buf := MakeRtp(size + 2, end && mark, pts);
      FillFuA(buf, nal, p, offset, size, start, end);
      Deliver(buf, Slot(FuA(nal, p), end && mark, pts));
    }

    /**
     One unit in several packets. False for the one length that leaves the first
     fragment a byte short: that fragment is sent with the byte behind the unit, and
     then the size of the next wraps below zero and its copy runs off the unit.
     */
    method PackRtpFu(nal: seq<byte>, behind: byte, pts: nat, mark: bool) returns (ok: bool)
      requires Numbered() && !Aggregated(nal, session.mtu)
      modifies this`seqNo, this`sent, this`slots
      ensures Numbered() && (ok <==> Sendable(nal, session.mtu))
      ensures ok ==> slots == old(slots) + Slots(Unit(nal, pts, mark, false), session.mtu)
      ensures !ok ==>
        slots == old(slots) + [Slot(FuA(nal + [behind], Piece(1, Room(session.mtu), true, false)), false, pts)]
    {
      var room := session.mtu - RTP_HEADER - 2;
      if |nal| == room {
        SendFragment(nal + [behind], Piece(1, room, true, false), pts, mark, 1, room, true, false);
        return false;
      }
      PiecesInRange(nal, session.mtu);
      var packetSize, offset := room, 1;
      var start, end := true, false;
      ghost var rest := Pieces(|nal|, room).value;
      while !end
        invariant Numbered()
        invariant offset >= 0 && (end || packetSize == room)
        invariant forall p :: p in rest ==> p.offset + p.size <= |nal|
        invariant if end then rest == [] else PiecesFrom(|nal|, room, offset, start) == Some(rest)
        invariant slots + PieceSlots(nal, rest, mark, pts) ==
                  old(slots) + Slots(Unit(nal, pts, mark, false), session.mtu)
        decreases |rest|
      {
        ghost var p := rest[0];
        if !start && |nal| <= offset + packetSize {
          end := true;
          packetSize := |nal| - offset;
        }
        assert p == Piece(offset, packetSize, start, end);
        FirstPiece(nal, rest, mark, pts, slots);
        SendFragment(nal, p, pts, mark, offset, packetSize, start, end);
        rest := rest[1..];
        offset := offset + packetSize;
        start := false;
      }
      ok := true;
    }

    method PackRtp(u: Unit, behind: byte) returns (ok: bool)
      requires Numbered()
      modifies this`seqNo, this`sent, this`slots
      ensures Numbered() && (ok <==> Sendable(u.data, session.mtu))
      ensures ok ==> slots == old(slots) + Slots(u, session.mtu)
    {
      if |u.data| + 3 <= session.mtu - RTP_HEADER {
        PackRtpStapA(u.data, u.pts, u.mark);
        ok := true;
      } else {
        ok := PackRtpFu(u.data, behind, u.pts, u.mark);
      }
    }

    /** The parameter sets, if both are known. The second is read with the length of the first. */
    method InsertConfigFrame(pts: nat) returns (ok: bool)
      requires Numbered()
      modifies this`seqNo, this`sent, this`slots
      ensures Numbered() && (ok <==> AllSendable(ConfigUnits(sps, pps, pts, beyond), session.mtu))
      ensures ok ==> slots == old(slots) + AllSlots(ConfigUnits(sps, pps, pts, beyond), session.mtu)
    {
      if sps.None? || pps.None? {
        return true;
      }
      var n := |sps.value.buffer|;
      var first := Unit(sps.value.buffer, pts, false, true);
      var second := Unit(ReadBytes(pps.value.buffer, n, beyond), pts, false, true);
      TwoUnits(first, second, session.mtu);
      Assoc(slots, Slots(first, session.mtu), Slots(second, session.mtu));
      ok := PackRtp(first, ByteBehind(sps.value.buffer, n, beyond));
      if ok {
        ok := PackRtp(second, ByteBehind(pps.value.buffer, n, beyond));
      }
    }

    method InputFrameL(f: Nalu, mark: bool) returns (ok: bool)
      requires Numbered()
      modifies this`seqNo, this`sent, this`slots
      ensures Numbered() && (ok <==> AllSendable(Release(f, mark, sps, pps, beyond), session.mtu))
      ensures ok ==> slots == old(slots) + AllSlots(Release(f, mark, sps, pps, beyond), session.mtu)
    {
      var u := Unit(f.buffer, f.pts, mark, false);
      ghost var config := ConfigBefore(f, sps, pps, beyond);
      OneMoreUnit(config, u, session.mtu);
      Assoc(slots, AllSlots(config, session.mtu), Slots(u, session.mtu));
      ok := InsertBefore(f);
      if ok {
        ok := PackRtp(u, ByteBehind(f.buffer, |f.buffer|, beyond));
      }
    }

    method InsertBefore(f: Nalu) returns (ok: bool)
      requires Numbered()
      modifies this`seqNo, this`sent, this`slots
      ensures Numbered() && (ok <==> AllSendable(ConfigBefore(f, sps, pps, beyond), session.mtu))
      ensures ok ==> slots == old(slots) + AllSlots(ConfigBefore(f, sps, pps, beyond), session.mtu)
    {
      ok := true;
      if f.KeyFrame() {
        ok := InsertConfigFrame(f.pts);
      }
    }

    /** Feeds one unit. False when a unit that it releases cannot be fragmented. */
    method InputFrame(nalu: Nalu) returns (ok: bool)
      requires Valid()
      modifies this
      ensures ok <==> AllSendable(Due(old(State()), nalu, beyond), session.mtu)
      ensures ok ==> Valid() && fed == old(fed) + [nalu]
      ensures ok ==> State() == Feed(old(State()), nalu, beyond)
      ensures var t := Avc.UnitType(nalu.buffer);
        && (t in {6, 9} ==> ok && State() == old(State()) && sent == old(sent))
        && (t == 7 ==> ok && State() == old(State()).(sps := Some(nalu)) && sent == old(sent))
        && (t == 8 ==> ok && State() == old(State()).(pps := Some(nalu)) && sent == old(sent))
        && (t !in {6, 7, 8, 9} && ok ==> lastNalu == Some(nalu) && sps == old(sps) && pps == old(pps))
    {
      AfterOneMore(fed, nalu, beyond);
      fed := fed + [nalu];
      if nalu.NalType() == NAL_SPS {
        sps := Some(nalu);
        return true;
      } else if nalu.NalType() == NAL_PPS {
        pps := Some(nalu);
        return true;
      }
      if nalu.DropAble() {
        return true;
      }
      ok := HoldBack(nalu);
    }

    /** A frame takes the place of the one held back, which is sent. */
    method HoldBack(nalu: Nalu) returns (ok: bool)
      requires Numbered() && slots == AllSlots(units, session.mtu) && AllSendable(units, session.mtu)
      requires IsFrame(nalu.buffer)
      modifies this`seqNo, this`sent, this`slots, this`units, this`lastNalu
      ensures ok <==> AllSendable(Due(old(State()), nalu, beyond), session.mtu)
      ensures ok ==> Numbered() && slots == AllSlots(units, session.mtu) && AllSendable(units, session.mtu)
      ensures ok ==> lastNalu == Some(nalu) && units == old(units) + Due(old(State()), nalu, beyond)
    {
      if lastNalu.Some? {
        ok := SendLast(lastNalu.value.pts != nalu.pts);
        if !ok {
          return;
        }
      }
      lastNalu := Some(nalu);
      ok := true;
    }

    /** The frame held back is sent. */
    method SendLast(mark: bool) returns (ok: bool)
      requires Numbered() && slots == AllSlots(units, session.mtu) && AllSendable(units, session.mtu) && lastNalu.Some?
      modifies this`seqNo, this`sent, this`slots, this`units
      ensures ok <==> AllSendable(Release(lastNalu.value, mark, sps, pps, beyond), session.mtu)
      ensures ok ==> Numbered() && slots == AllSlots(units, session.mtu) && AllSendable(units, session.mtu)
      ensures ok ==> units == old(units) + Release(lastNalu.value, mark, sps, pps, beyond)
    {
      ghost var us := Release(lastNalu.value, mark, sps, pps, beyond);
      ok := InputFrameL(lastNalu.value, mark);
      AllSlotsConcat(units, us, session.mtu);
      units := units + us;
    }
  }
}
