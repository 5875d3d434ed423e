/**
 What a standard receiver makes of everything the encoder has sent.
 */
module H264Theorems {
  import opened Bytes
  import opened RtpReceiver
  import opened H264Packets
  import opened H264Encoder
  import opened Options
  import opened Sequences
  import Avc

  /** The RTP packets of interleaved frames on a channel. */
  function ParsePackets(frames: seq<Frame>, channel: byte): Option<seq<RtpPacket>>
    decreases |frames|
  {
    if frames == [] then Some([])
    else if frames[0].channel != channel || ParseRtp(frames[0].data).None? then None
    else
      match ParsePackets(frames[1..], channel)
      case None => None
      case Some(rest) => Some([ParseRtp(frames[0].data).value] + rest)
  }

  /** The RTP packets of an interleaved byte stream on a channel. */
  function ReadStream(bytes: seq<byte>, channel: byte): Option<seq<RtpPacket>> {
    match ParseInterleaved(bytes)
    case None => None
    case Some(frames) => ParsePackets(frames, channel)
  }

  function PayloadsOf(packets: seq<RtpPacket>): seq<seq<byte>> {
    if packets == [] then [] else [packets[0].payload] + PayloadsOf(packets[1..])
  }

  function DataOf(us: seq<Unit>): seq<seq<byte>> {
    if us == [] then [] else [us[0].data] + DataOf(us[1..])
  }

  // ---- One packet

  predicate ValidSlot(slot: Slot, mtu: nat) {
    RTP_HEADER + |slot.payload| <= mtu && slot.pts < U32
  }

  function PacketOf(s: Session, slot: Slot, k: nat): RtpPacket {
    RtpPacket(slot.mark, (s.payloadType % 128) as nat, k % U16, slot.pts, s.ssrc, slot.payload)
  }

  lemma {:induction false} PartsRead(second: byte, a: seq<byte>, b: seq<byte>, c: seq<byte>, payload: seq<byte>)
    requires |a| == 2 && |b| == 4 && |c| == 4
    ensures ParseRtp([128, second] + a + b + c + payload) ==
            Some(RtpPacket(second / 128 == 1, (second % 128) as nat, Get16(a), Get32(b), Get32(c), payload))
  {
    var data := [128, second] + a + b + c + payload;
    assert data[2..4] == a;
    assert data[4..8] == b;
    assert data[8..12] == c;
    assert data[12..] == payload;
  }

  lemma {:induction false} HeaderParts(s: Session, mark: bool, seqNo: nat, pts: nat, second: byte)
    requires s.Valid() && seqNo < U16 && pts < U32
    requires second == (if mark then 128 else 0) + s.payloadType % 128
    ensures RtpHeader(s, mark, seqNo, pts) == [128, second] + Put16(seqNo) + Put32(pts) + Put32(s.ssrc)
    ensures (second / 128 == 1 <==> mark) && second % 128 == s.payloadType % 128
  {
    assert seqNo % U16 == seqNo && pts % U32 == pts && s.ssrc % U32 == s.ssrc;
  }

  /** The header the encoder writes is read back field by field. */
  lemma {:induction false} HeaderRead(s: Session, slot: Slot, k: nat)
    requires s.Valid() && slot.pts < U32
    ensures ParseRtp(RtpHeader(s, slot.mark, k % U16, slot.pts) + slot.payload) == Some(PacketOf(s, slot, k))
  {
    var second: byte := (if slot.mark then 128 else 0) + s.payloadType % 128;
    var a, b, c := Put16(k % U16), Put32(slot.pts), Put32(s.ssrc);
    HeaderParts(s, slot.mark, k % U16, slot.pts, second);
    PartsRead(second, a, b, c, slot.payload);
    Get16Put16(k % U16);
    Get32Put32(slot.pts);
    Get32Put32(s.ssrc);
  }

  function FrameOf(s: Session, slot: Slot, k: nat): Frame {
    Frame(s.channel, RtpHeader(s, slot.mark, k % U16, slot.pts) + slot.payload)
  }

  /** A frame is read off the front of the stream, whatever follows it. */
  lemma {:induction false} FrameRead(channel: byte, data: seq<byte>, rest: seq<byte>)
    requires |data| < U16
    ensures ParseInterleaved(['$' as byte, channel] + Put16(|data|) + data + rest) ==
            match ParseInterleaved(rest)
            case None => None
            case Some(frames) => Some([Frame(channel, data)] + frames)
  {
    var b := ['$' as byte, channel] + Put16(|data|) + data + rest;
    Get16Put16(|data|);
    assert b[2..4] == Put16(|data|);
    assert b[4..4 + |data|] == data;
    assert b[4 + |data|..] == rest;
  }

  /** A packet the encoder sends is one interleaved frame. */
  lemma {:induction false} PacketIsFrame(s: Session, slot: Slot, k: nat)
    requires s.Valid() && ValidSlot(slot, s.mtu)
    ensures var f := FrameOf(s, slot, k);
            && |f.data| < U16 && f.channel == s.channel
            && PacketBytes(s, slot, k) == ['$' as byte, s.channel] + Put16(|f.data|) + f.data
  {
    var f := FrameOf(s, slot, k);
    assert |f.data| == |slot.payload| + RTP_HEADER;
  }

  // ---- All packets

  function FramesOf(s: Session, slots: seq<Slot>, k: nat): seq<Frame> {
    if slots == [] then [] else [FrameOf(s, slots[0], k)] + FramesOf(s, slots[1..], k + 1)
  }

  function PacketsOf(s: Session, slots: seq<Slot>, k: nat): (r: seq<RtpPacket>)
    ensures |r| == |slots|
    ensures forall i :: 0 <= i < |slots| ==> r[i] == PacketOf(s, slots[i], k + i)
  {
    seq(|slots|, i requires 0 <= i < |slots| => PacketOf(s, slots[i], k + i))
  }

  lemma {:induction false} FramesRead(s: Session, slots: seq<Slot>, k: nat)
    requires s.Valid() && forall x :: x in slots ==> ValidSlot(x, s.mtu)
    ensures ParseInterleaved(Flatten(Emit(s, slots, k))) == Some(FramesOf(s, slots, k))
    decreases |slots|
  {
    if slots != [] {
      var rest := Emit(s, slots[1..], k + 1);
      var f := FrameOf(s, slots[0], k);
      assert Emit(s, slots, k)[1..] == rest;
      FramesRead(s, slots[1..], k + 1);
      PacketIsFrame(s, slots[0], k);
      FrameRead(s.channel, f.data, Flatten(rest));
      assert Flatten(Emit(s, slots, k)) == PacketBytes(s, slots[0], k) + Flatten(rest);
    }
  }

  lemma {:induction false} FirstPacket(f: Frame, rest: seq<Frame>, p: RtpPacket, packets: seq<RtpPacket>)
    requires ParseRtp(f.data) == Some(p) && ParsePackets(rest, f.channel) == Some(packets)
    ensures ParsePackets([f] + rest, f.channel) == Some([p] + packets)
  {
    assert ([f] + rest)[1..] == rest;
  }

  lemma {:induction false} PacketsCons(s: Session, slots: seq<Slot>, k: nat)
    requires slots != []
    ensures PacketsOf(s, slots, k) == [PacketOf(s, slots[0], k)] + PacketsOf(s, slots[1..], k + 1)
    ensures FramesOf(s, slots, k) == [FrameOf(s, slots[0], k)] + FramesOf(s, slots[1..], k + 1)
  {
  }

  lemma {:induction false} PacketsRead(s: Session, slots: seq<Slot>, k: nat)
    requires s.Valid() && forall x :: x in slots ==> ValidSlot(x, s.mtu)
    ensures ParsePackets(FramesOf(s, slots, k), s.channel) == Some(PacketsOf(s, slots, k))
    decreases |slots|
  {
    if slots != [] {
      var first, more := slots[0], slots[1..];
      assert first in slots;
      HeaderRead(s, first, k);
      PacketsRead(s, more, k + 1);
      FirstPacket(FrameOf(s, first, k), FramesOf(s, more, k + 1), PacketOf(s, first, k), PacketsOf(s, more, k + 1));
      PacketsCons(s, slots, k);
    }
  }

  lemma {:induction false} StreamRead(s: Session, slots: seq<Slot>, k: nat)
    requires s.Valid() && forall x :: x in slots ==> ValidSlot(x, s.mtu)
    ensures ReadStream(Flatten(Emit(s, slots, k)), s.channel) == Some(PacketsOf(s, slots, k))
  {
    FramesRead(s, slots, k);
    PacketsRead(s, slots, k);
  }

  lemma {:induction false} PieceSlotsFacts(nal: seq<byte>, pieces: seq<Piece>, mark: bool, pts: nat)
    requires forall p :: p in pieces ==> p.offset + p.size <= |nal|
    ensures var slots := PieceSlots(nal, pieces, mark, pts);
            && |slots| == |pieces| == |FuAs(nal, pieces)|
            && forall i :: 0 <= i < |pieces| ==>
                 && slots[i] == Slot(FuA(nal, pieces[i]), pieces[i].end && mark, pts)
                 && FuAs(nal, pieces)[i] == FuA(nal, pieces[i])
    decreases |pieces|
  {
    if pieces != [] {
      PieceSlotsFacts(nal, pieces[1..], mark, pts);
    }
  }

  /** The packets of a unit: its payloads, all with its time, and the marker at most on the last. */
  lemma {:induction false} SlotsFacts(u: Unit, mtu: nat)
    requires Sendable(u.data, mtu)
    ensures var slots, payloads := Slots(u, mtu), Payloads(u.data, mtu);
            && |slots| == |payloads| >= 1
            && forall i :: 0 <= i < |slots| ==>
                 && slots[i] == Slot(payloads[i], u.mark && i == |slots| - 1, u.pts)
                 && RTP_HEADER + |payloads[i]| <= mtu
  {
    PayloadsFit(u.data, mtu);
    if !Aggregated(u.data, mtu) {
      PiecesInRange(u.data, mtu);
      FragmentsAreWellFormed(|u.data|, mtu);
      PieceSlotsFacts(u.data, Pieces(|u.data|, Room(mtu)).value, u.mark, u.pts);
    }
  }

  function SlotPayloads(slots: seq<Slot>): seq<seq<byte>> {
    seq(|slots|, i requires 0 <= i < |slots| => slots[i].payload)
  }

  lemma {:induction false} UnitsReceived(us: seq<Unit>, mtu: nat, r: Reception)
    requires AllSendable(us, mtu) && r.Reception? && r.pending.None?
    ensures ReceiveAll(r, SlotPayloads(AllSlots(us, mtu))) == r.(nals := r.nals + DataOf(us))
    decreases |us|
  {
    if us == [] {
      assert r.nals + DataOf(us) == r.nals;
    } else {
      HeadAndTail(us, mtu, r.nals);
      UnitsReceived(us[1..], mtu, r.(nals := r.nals + [us[0].data]));
      UnitThenSlots(us[0], mtu, r, AllSlots(us[1..], mtu));
    }
  }

  lemma {:induction false} HeadAndTail(us: seq<Unit>, mtu: nat, nals: seq<seq<byte>>)
    requires us != [] && AllSendable(us, mtu)
    ensures Sendable(us[0].data, mtu) && AllSendable(us[1..], mtu)
    ensures AllSlots(us, mtu) == Slots(us[0], mtu) + AllSlots(us[1..], mtu)
    ensures nals + [us[0].data] + DataOf(us[1..]) == nals + DataOf(us)
  {
  }

  lemma {:induction false} SlotsInTurn(r: Reception, a: seq<Slot>, b: seq<Slot>)
    ensures ReceiveAll(r, SlotPayloads(a + b)) == ReceiveAll(ReceiveAll(r, SlotPayloads(a)), SlotPayloads(b))
  {
    assert SlotPayloads(a + b) == SlotPayloads(a) + SlotPayloads(b);
    ReceiveAllConcat(r, SlotPayloads(a), SlotPayloads(b));
  }

  lemma {:induction false} UnitThenSlots(u: Unit, mtu: nat, r: Reception, rest: seq<Slot>)
    requires Sendable(u.data, mtu) && r.Reception? && r.pending.None?
    ensures ReceiveAll(r, SlotPayloads(Slots(u, mtu) + rest)) ==
            ReceiveAll(r.(nals := r.nals + [u.data]), SlotPayloads(rest))
  {
    SlotsReceived(u, mtu, r);
    SlotsInTurn(r, Slots(u, mtu), rest);
  }

  lemma {:induction false} SlotsReceived(u: Unit, mtu: nat, r: Reception)
    requires Sendable(u.data, mtu) && r.Reception? && r.pending.None?
    ensures ReceiveAll(r, SlotPayloads(Slots(u, mtu))) == r.(nals := r.nals + [u.data])
  {
    SlotsFacts(u, mtu);
    assert SlotPayloads(Slots(u, mtu)) == Payloads(u.data, mtu);
    UnitReceived(u.data, mtu, r);
  }

  lemma {:induction false} AllSlotsValid(us: seq<Unit>, mtu: nat)
    requires forall u :: u in us ==> u.pts < U32
    ensures forall x :: x in AllSlots(us, mtu) ==> ValidSlot(x, mtu)
    decreases |us|
  {
    if us != [] {
      AllSlotsValid(us[1..], mtu);
      if Sendable(us[0].data, mtu) {
        SlotsFacts(us[0], mtu);
      }
    }
  }

  /**
   Whatever units have been fed, the bytes sent so far parse in one way into
   interleaved frames and RTP packets, the i-th packet is numbered i modulo 65536,
   and a receiver that follows the standards puts together exactly the units to
   be sent: the frames, in order, with the parameter sets before key frames.
   */
  lemma {:induction false} StreamCarriesUnits(s: Session, xs: seq<Nalu>, beyond: nat -> byte)
    requires s.Valid() && AllSendable(Units(xs, beyond), s.mtu) && forall x :: x in xs ==> x.pts < U32
    ensures var us := Units(xs, beyond);
            var slots := AllSlots(us, s.mtu);
            var r := ReadStream(Flatten(Emit(s, slots, 0)), s.channel);
            && r == Some(PacketsOf(s, slots, 0))
            && (forall i :: 0 <= i < |slots| ==> r.value[i].seqNo == i % U16)
            && ReceiveAll(Reception(None, []), PayloadsOf(r.value)) == Reception(None, DataOf(us))
  {
    AfterIsHistory(xs, beyond);
    UnitsAreSendable(xs, beyond, s.mtu);
    var us := Units(xs, beyond);
    var slots := AllSlots(us, s.mtu);
    AllSlotsValid(us, s.mtu);
    StreamRead(s, slots, 0);
    PayloadsOfPackets(s, slots, 0);
    UnitsReceived(us, s.mtu, Reception(None, []));
    assert [] + DataOf(us) == DataOf(us);
  }

  /** The same of an encoder object: what it has sent carries what it was fed. */
  lemma {:induction false} SentCarriesFed(e: H264RtpEncoder)
    requires e.Valid() && forall x :: x in e.fed ==> x.pts < U32
    ensures var r := ReadStream(Flatten(e.sent), e.session.channel);
            && r.Some? && |r.value| == |e.sent|
            && (forall i :: 0 <= i < |e.sent| ==> r.value[i].seqNo == i % U16)
            && ReceiveAll(Reception(None, []), PayloadsOf(r.value)) == Reception(None, DataOf(Units(e.fed, e.beyond)))
  {
    AfterIsHistory(e.fed, e.beyond);
    StreamCarriesUnits(e.session, e.fed, e.beyond);
  }

  lemma {:induction false} PayloadsOfPackets(s: Session, slots: seq<Slot>, k: nat)
    ensures PayloadsOf(PacketsOf(s, slots, k)) == SlotPayloads(slots)
    decreases |slots|
  {
    if slots != [] {
      PayloadsOfPackets(s, slots[1..], k + 1);
      assert PacketsOf(s, slots, k)[1..] == PacketsOf(s, slots[1..], k + 1);
      assert SlotPayloads(slots) == [slots[0].payload] + SlotPayloads(slots[1..]);
    }
  }

  // ---- What the units to be sent are

  function FrameUnits(us: seq<Unit>): seq<Unit> {
    if us == [] then []
    else (if us[0].config then [] else [us[0]]) + FrameUnits(us[1..])
  }

  lemma {:induction false} FrameUnitsConcat(a: seq<Unit>, b: seq<Unit>)
    ensures FrameUnits(a + b) == FrameUnits(a) + FrameUnits(b)
    decreases |a|
  {
    if a == [] {
      assert a + b == b;
    } else {
      assert (a + b)[1..] == a[1..] + b;
      FrameUnitsConcat(a[1..], b);
    }
  }

  /** The frames but the last, each marked when the time of the next one differs. */
  function Released(frames: seq<Nalu>): seq<Unit> {
    if |frames| < 2 then []
    else
      var n := |frames|;
      Released(frames[..n - 1]) +
      [Unit(frames[n - 2].buffer, frames[n - 2].pts, frames[n - 2].pts != frames[n - 1].pts, false)]
  }

  lemma {:induction false} ReleaseFrameUnits(f: Nalu, mark: bool, sps: Option<Nalu>, pps: Option<Nalu>,
                                             beyond: nat -> byte)
    ensures FrameUnits(Release(f, mark, sps, pps, beyond)) == [Unit(f.buffer, f.pts, mark, false)]
  {
    var config := if f.KeyFrame() then ConfigUnits(sps, pps, f.pts, beyond) else [];
    var last := [Unit(f.buffer, f.pts, mark, false)];
    FrameUnitsConcat(config, last);
    assert last[1..] == [] && FrameUnits(last) == last;
    if config != [] {
      assert config[1..][1..] == [];
      assert FrameUnits(config) == FrameUnits(config[1..]) == [];
    }
  }

  /** Leaving parameter sets aside, the frames are sent in order, all but the one held back. */
  lemma {:induction false} FramesAreReleased(xs: seq<Nalu>, beyond: nat -> byte)
    ensures FrameUnits(Units(xs, beyond)) == Released(Frames(xs))
    decreases |xs|
  {
    if xs != [] {
      var before, x := xs[..|xs| - 1], xs[|xs| - 1];
      FramesAreReleased(before, beyond);
      var frames := Frames(before);
      if IsFrame(x.buffer) && frames != [] {
        var f := frames[|frames| - 1];
        var us := Release(f, f.pts != x.pts, Latest(before, NAL_SPS), Latest(before, NAL_PPS), beyond);
        FrameUnitsConcat(Units(before, beyond), us);
        ReleaseFrameUnits(f, f.pts != x.pts, Latest(before, NAL_SPS), Latest(before, NAL_PPS), beyond);
        assert Frames(xs) == frames + [x] && Frames(xs)[..|frames|] == frames;
      } else {
        assert Units(xs, beyond) == Units(before, beyond);
        assert IsFrame(x.buffer) || Frames(xs) == frames;
      }
    }
  }

  // ---- The parameter sets, in terms of the units fed

  /** Unit `p` is the last of type `t` in front of unit `k`. */
  predicate LastOfType(xs: seq<Nalu>, k: nat, t: nat, p: nat) {
    && p < k <= |xs| && Avc.UnitType(xs[p].buffer) == t
    && forall j :: p < j < k ==> Avc.UnitType(xs[j].buffer) != t
  }

  /** There is none. */
  predicate NoneOfType(xs: seq<Nalu>, k: nat, t: nat) {
    k <= |xs| && forall j :: 0 <= j < k ==> Avc.UnitType(xs[j].buffer) != t
  }

  /** Unit `k` is the first frame behind frame `i`. */
  predicate NextFrame(xs: seq<Nalu>, i: nat, k: nat) {
    && i < k < |xs| && IsFrame(xs[i].buffer) && IsFrame(xs[k].buffer)
    && forall j :: i < j < k ==> !IsFrame(xs[j].buffer)
  }

  lemma {:induction false} LatestAt(xs: seq<Nalu>, k: nat, t: byte, p: nat)
    requires LastOfType(xs, k, t as nat, p)
    ensures Latest(xs[..k], t) == Some(xs[p])
    decreases k
  {
    assert xs[..k][..k - 1] == xs[..k - 1];
    if p < k - 1 {
      LatestAt(xs, k - 1, t, p);
    }
  }

  lemma {:induction false} LatestNowhere(xs: seq<Nalu>, k: nat, t: byte)
    requires NoneOfType(xs, k, t as nat)
    ensures Latest(xs[..k], t) == None
    decreases k
  {
    if k > 0 {
      assert xs[..k][..k - 1] == xs[..k - 1];
      LatestNowhere(xs, k - 1, t);
    }
  }

  /** A parameter set has come last at some place, or never. */
  lemma {:induction false} LastOrNone(xs: seq<Nalu>, k: nat, t: nat) returns (p: nat)
    requires k <= |xs|
    ensures LastOfType(xs, k, t, p) || NoneOfType(xs, k, t)
    decreases k
  {
    p := 0;
    if k > 0 {
      if Avc.UnitType(xs[k - 1].buffer) == t {
        p := k - 1;
      } else {
        p := LastOrNone(xs, k - 1, t);
      }
    }
  }

  /** Units that are no frames send nothing. */
  lemma {:induction false} OthersAfter(before: seq<Nalu>, others: seq<Nalu>, beyond: nat -> byte)
    requires forall j :: 0 <= j < |others| ==> !IsFrame(others[j].buffer)
    ensures Frames(before + others) == Frames(before) && Units(before + others, beyond) == Units(before, beyond)
    decreases |others|
  {
    if others == [] {
      assert before + others == before;
    } else {
      var x := others[0];
      OtherOneMore(before, x, beyond);
      OthersAfter(before + [x], others[1..], beyond);
      assert before + others == before + [x] + others[1..];
    }
  }

  /** Until the next frame comes, frame `i` is held back and nothing is sent. */
  lemma {:induction false} HeldAt(xs: seq<Nalu>, i: nat, k: nat, beyond: nat -> byte)
    requires i < k <= |xs| && IsFrame(xs[i].buffer) && forall j :: i < j < k ==> !IsFrame(xs[j].buffer)
    ensures Frames(xs[..k]) == Frames(xs[..i]) + [xs[i]] && Units(xs[..k], beyond) == Units(xs[..i + 1], beyond)
  {
    OthersAfter(xs[..i + 1], xs[i + 1..k], beyond);
    assert xs[..k] == xs[..i + 1] + xs[i + 1..k];
    FramesOneMore(xs[..i], xs[i]);
    assert xs[..i + 1] == xs[..i] + [xs[i]];
  }

  lemma {:induction false} FramesOneMore(before: seq<Nalu>, x: Nalu)
    requires IsFrame(x.buffer)
    ensures Frames(before + [x]) == Frames(before) + [x]
  {
    assert (before + [x])[..|before|] == before;
  }

  lemma {:induction false} OtherOneMore(before: seq<Nalu>, x: Nalu, beyond: nat -> byte)
    requires !IsFrame(x.buffer)
    ensures Frames(before + [x]) == Frames(before) && Units(before + [x], beyond) == Units(before, beyond)
  {
    assert (before + [x])[..|before|] == before;
  }

  /** What has been sent stays sent. */
  lemma {:induction false} UnitsGrow(xs: seq<Nalu>, k: nat, beyond: nat -> byte)
    requires k <= |xs|
    ensures Units(xs[..k], beyond) <= Units(xs, beyond)
    decreases |xs|
  {
    if k < |xs| {
      assert xs[..|xs| - 1][..k] == xs[..k];
      UnitsGrow(xs[..|xs| - 1], k, beyond);
    } else {
      assert xs[..k] == xs;
    }
  }

  lemma {:induction false} UnitsOneMore(before: seq<Nalu>, f: Nalu, frames: seq<Nalu>, x: Nalu, beyond: nat -> byte)
    requires IsFrame(x.buffer) && Frames(before) == frames + [f]
    ensures Units(before + [x], beyond) == Units(before, beyond) +
            (ConfigBefore(f, Latest(before, NAL_SPS), Latest(before, NAL_PPS), beyond) +
             [Unit(f.buffer, f.pts, f.pts != x.pts, false)])
  {
    assert (before + [x])[..|before|] == before;
    assert Held(before) == Some(f);
  }

  /** The parameter sets that the coming of frame `k` sends before frame `i`. */
  function SetsSent(xs: seq<Nalu>, i: nat, k: nat, beyond: nat -> byte): seq<Unit>
    requires i < |xs| && k <= |xs|
  {
    ConfigBefore(xs[i], Latest(xs[..k], NAL_SPS), Latest(xs[..k], NAL_PPS), beyond)
  }

  function FrameUnit(xs: seq<Nalu>, i: nat, k: nat): Unit
    requires i < |xs| && k < |xs|
  {
    Unit(xs[i].buffer, xs[i].pts, xs[i].pts != xs[k].pts, false)
  }

  /** What the coming of frame `k` sends. */
  lemma {:induction false} SentAt(xs: seq<Nalu>, i: nat, k: nat, beyond: nat -> byte)
    requires NextFrame(xs, i, k)
    ensures Units(xs[..k + 1], beyond) ==
            Units(xs[..i + 1], beyond) + (SetsSent(xs, i, k, beyond) + [FrameUnit(xs, i, k)])
    ensures Units(xs[..k + 1], beyond) <= Units(xs, beyond)
  {
    HeldAt(xs, i, k, beyond);
    UnitsOneMore(xs[..k], xs[i], Frames(xs[..i]), xs[k], beyond);
    assert xs[..k + 1] == xs[..k] + [xs[k]];
    UnitsGrow(xs, k + 1, beyond);
  }

  /** Where these come to lie among all units. */
  lemma {:induction false} Places(us: seq<Unit>, now: seq<Unit>, sent: seq<Unit>, sets: seq<Unit>, u: Unit)
    requires now == sent + (sets + [u]) && now <= us
    ensures us[..|sent|] == sent && us[|sent|..|now| - 1] == sets
    ensures us[..|now| - 1] == sent + sets && us[|now| - 1] == u
  {
  }

  /** The last unit sent, if any, is a frame. */
  lemma {:induction false} LastSentIsFrame(xs: seq<Nalu>, beyond: nat -> byte)
    ensures var us := Units(xs, beyond); us == [] || !us[|us| - 1].config
    decreases |xs|
  {
    if xs != [] {
      LastSentIsFrame(xs[..|xs| - 1], beyond);
    }
  }

  /** The units between two frame units are a pair of parameter sets. */
  ghost predicate ArePair(us: seq<Unit>, sps: seq<byte>, pps: seq<byte>, pts: nat, beyond: nat -> byte) {
    && |us| == 2 && us[0] == Unit(sps, pts, false, true)
    && us[1] == Unit(us[1].data, pts, false, true) && |us[1].data| == |sps|
    && forall j :: 0 <= j < |sps| ==> us[1].data[j] == if j < |pps| then pps[j] else beyond(j - |pps|)
  }

  /**
   Every frame but the last is sent when the next one comes. Between the frame unit
   before it and its own there are parameter sets if and only if it begins an IDR
   picture and one of each type has been fed by then: the two fed last, the sequence
   parameter set first, with the time of the frame and the second read with the
   length of the first.
   */
  lemma {:induction false} SetsBeforeFrame(xs: seq<Nalu>, beyond: nat -> byte, i: nat, k: nat)
    requires NextFrame(xs, i, k)
    ensures var us, a, b := Units(xs, beyond), |Units(xs[..i + 1], beyond)|, |Units(xs[..k + 1], beyond)|;
      && a < b <= |us| && (a > 0 ==> !us[a - 1].config)
      && us[b - 1] == Unit(xs[i].buffer, xs[i].pts, xs[i].pts != xs[k].pts, false)
      && |FrameUnits(us[..b - 1])| == |Frames(xs[..i])|
      && (a < b - 1 <==> Avc.BeginsIdr(xs[i].buffer) && !NoneOfType(xs, k, 7) && !NoneOfType(xs, k, 8))
      && forall p: nat, q: nat :: a < b - 1 && LastOfType(xs, k, 7, p) && LastOfType(xs, k, 8, q) ==>
           ArePair(us[a..b - 1], xs[p].buffer, xs[q].buffer, xs[i].pts, beyond)
  {
    var us, now, sent := Units(xs, beyond), Units(xs[..k + 1], beyond), Units(xs[..i + 1], beyond);
    var sets := SetsSent(xs, i, k, beyond);
    SentAt(xs, i, k, beyond);
    Places(us, now, sent, sets, FrameUnit(xs, i, k));
    LastSentIsFrame(xs[..i + 1], beyond);
    FrameNumber(xs, i, beyond);
    SetsAre(xs, i, k, beyond);
    TestsExactly(xs[i]);
    FrameUnitsConcat(sent, sets);
    assert us[..|sent|] == sent;
  }

  /** Those parameter sets. */
  lemma {:induction false} SetsAre(xs: seq<Nalu>, i: nat, k: nat, beyond: nat -> byte)
    requires i < |xs| && k <= |xs|
    ensures var sets := SetsSent(xs, i, k, beyond);
      && FrameUnits(sets) == []
      && (sets != [] <==> xs[i].KeyFrame() && !NoneOfType(xs, k, 7) && !NoneOfType(xs, k, 8))
      && forall p: nat, q: nat :: sets != [] && LastOfType(xs, k, 7, p) && LastOfType(xs, k, 8, q) ==>
           ArePair(sets, xs[p].buffer, xs[q].buffer, xs[i].pts, beyond)
  {
    var sps, pps := Latest(xs[..k], NAL_SPS), Latest(xs[..k], NAL_PPS);
    SetsAt(xs, k, 7, NAL_SPS);
    SetsAt(xs, k, 8, NAL_PPS);
    if sps.Some? && pps.Some? {
      PairOf(sps.value, pps.value, xs[i].pts, beyond);
    }
  }

  lemma {:induction false} PairOf(sps: Nalu, pps: Nalu, pts: nat, beyond: nat -> byte)
    ensures var sets := ConfigUnits(Some(sps), Some(pps), pts, beyond);
      sets != [] && ArePair(sets, sps.buffer, pps.buffer, pts, beyond) && FrameUnits(sets) == []
  {
    var sets := ConfigUnits(Some(sps), Some(pps), pts, beyond);
    assert sets[1..] == [sets[1]] && sets[1..][1..] == [];
    assert FrameUnits(sets[1..]) == [];
  }

  lemma {:induction false} SetsAt(xs: seq<Nalu>, k: nat, t: nat, kind: byte)
    requires k <= |xs| && t == kind as nat
    ensures Latest(xs[..k], kind).None? <==> NoneOfType(xs, k, t)
    ensures forall p: nat :: LastOfType(xs, k, t, p) ==> Latest(xs[..k], kind) == Some(xs[p])
  {
    forall p: nat | LastOfType(xs, k, t, p)
      ensures Latest(xs[..k], kind) == Some(xs[p])
    {
      LatestAt(xs, k, kind, p);
    }
    var p := LastOrNone(xs, k, t);
    if NoneOfType(xs, k, t) {
      LatestNowhere(xs, k, kind);
    }
  }

  /** As many frame units are sent before a frame is held back as frames came before it. */
  lemma {:induction false} FrameNumber(xs: seq<Nalu>, i: nat, beyond: nat -> byte)
    requires i < |xs| && IsFrame(xs[i].buffer)
    ensures |FrameUnits(Units(xs[..i + 1], beyond))| == |Frames(xs[..i])|
  {
    HeldAt(xs, i, i + 1, beyond);
    FramesAreReleased(xs[..i + 1], beyond);
    ReleasedCount(Frames(xs[..i + 1]));
  }

  // ---- The marker

  /** Which unit the k-th packet belongs to. */
  function UnitOf(us: seq<Unit>, mtu: nat, k: nat): (j: nat)
    requires AllSendable(us, mtu) && k < |AllSlots(us, mtu)|
    ensures j < |us|
    decreases |us|
  {
    var n := |Slots(us[0], mtu)|;
    if k < n then 0 else 1 + UnitOf(us[1..], mtu, k - n)
  }

  /** The k-th packet is the last of its unit. */
  predicate LastOfUnit(us: seq<Unit>, mtu: nat, k: nat)
    requires AllSendable(us, mtu) && k < |AllSlots(us, mtu)|
  {
    k + 1 == |AllSlots(us, mtu)| || UnitOf(us, mtu, k + 1) != UnitOf(us, mtu, k)
  }

  /** Every packet carries the time of its unit, and its marker if it is the last. */
  lemma {:induction false} SlotOfUnit(us: seq<Unit>, mtu: nat, k: nat)
    requires AllSendable(us, mtu) && k < |AllSlots(us, mtu)|
    ensures var slot, u := AllSlots(us, mtu)[k], us[UnitOf(us, mtu, k)];
      slot.pts == u.pts && slot.mark == (u.mark && LastOfUnit(us, mtu, k))
    decreases |us|
  {
    var first, rest := Slots(us[0], mtu), AllSlots(us[1..], mtu);
    var n := |first|;
    SlotsFacts(us[0], mtu);
    if k < n {
      assert AllSlots(us, mtu)[k] == first[k];
      if n < |AllSlots(us, mtu)| {
        assert UnitOf(us, mtu, n) > 0;
      }
    } else {
      assert AllSlots(us, mtu)[k] == rest[k - n];
      SlotOfUnit(us[1..], mtu, k - n);
    }
  }

  /** Parameter sets carry no marker. */
  lemma {:induction false} ConfigIsUnmarked(xs: seq<Nalu>, beyond: nat -> byte, u: Unit)
    requires u in Units(xs, beyond) && u.config
    ensures !u.mark
    decreases |xs|
  {
    var before := xs[..|xs| - 1];
    if u in Units(before, beyond) {
      ConfigIsUnmarked(before, beyond, u);
    } else {
      assert u in ConfigBefore(Held(before).value, Latest(before, NAL_SPS), Latest(before, NAL_PPS), beyond);
    }
  }

  /** A frame unit is the one of its number among the frame units. */
  lemma {:induction false} FrameUnitAt(us: seq<Unit>, j: nat)
    requires j < |us| && !us[j].config
    ensures var n := |FrameUnits(us[..j])|; n < |FrameUnits(us)| && FrameUnits(us)[n] == us[j]
  {
    assert us == us[..j] + us[j..] && us[j..][0] == us[j];
    FrameUnitsConcat(us[..j], us[j..]);
  }

  lemma {:induction false} ReleasedAt(frames: seq<Nalu>, n: nat)
    requires n < |Released(frames)|
    ensures n + 1 < |frames|
    ensures Released(frames)[n] ==
            Unit(frames[n].buffer, frames[n].pts, frames[n].pts != frames[n + 1].pts, false)
    decreases |frames|
  {
    if n < |Released(frames[..|frames| - 1])| {
      ReleasedAt(frames[..|frames| - 1], n);
    } else {
      ReleasedCount(frames[..|frames| - 1]);
    }
  }

  lemma {:induction false} ReleasedCount(frames: seq<Nalu>)
    ensures |Released(frames)| == if frames == [] then 0 else |frames| - 1
    decreases |frames|
  {
    if |frames| >= 2 {
      ReleasedCount(frames[..|frames| - 1]);
    }
  }

  /** A unit to be sent: a parameter set without a marker, or a frame marked when the time of the next one differs. */
  lemma {:induction false} UnitIsFrame(xs: seq<Nalu>, beyond: nat -> byte, j: nat)
    requires j < |Units(xs, beyond)|
    ensures var u, frames := Units(xs, beyond)[j], Frames(xs);
      var n := |FrameUnits(Units(xs, beyond)[..j])|;
      if u.config then !u.mark
      else n + 1 < |frames| && u == Unit(frames[n].buffer, frames[n].pts, frames[n].pts != frames[n + 1].pts, false)
  {
    var us := Units(xs, beyond);
    if us[j].config {
      ConfigIsUnmarked(xs, beyond, us[j]);
    } else {
      FrameUnitAt(us, j);
      FramesAreReleased(xs, beyond);
      ReleasedAt(Frames(xs), |FrameUnits(us[..j])|);
    }
  }

  /** A packet read from the bytes sent has the time and marker of its slot. */
  lemma {:induction false} PacketAt(s: Session, xs: seq<Nalu>, beyond: nat -> byte, k: nat)
    requires s.Valid() && AllSendable(Units(xs, beyond), s.mtu) && forall x :: x in xs ==> x.pts < U32
    requires k < |AllSlots(Units(xs, beyond), s.mtu)|
    ensures var slots := AllSlots(Units(xs, beyond), s.mtu);
      var r := ReadStream(Flatten(Emit(s, slots, 0)), s.channel);
      r.Some? && k < |r.value| && r.value[k].timestamp == slots[k].pts && r.value[k].mark == slots[k].mark
  {
    StreamCarriesUnits(s, xs, beyond);
  }

  /**
   On the packets read from the bytes sent: each carries the time of its unit, and
   the marker is on exactly the last packets of the frames whose next frame has
   another time.
   */
  lemma {:induction false} MarkedPackets(s: Session, xs: seq<Nalu>, beyond: nat -> byte, k: nat)
    requires s.Valid() && AllSendable(Units(xs, beyond), s.mtu) && forall x :: x in xs ==> x.pts < U32
    requires k < |AllSlots(Units(xs, beyond), s.mtu)|
    ensures var us, frames := Units(xs, beyond), Frames(xs);
      var r := ReadStream(Flatten(Emit(s, AllSlots(us, s.mtu), 0)), s.channel);
      var j := UnitOf(us, s.mtu, k);
      var n := |FrameUnits(us[..j])|;
      && r.Some? && k < |r.value| && r.value[k].timestamp == us[j].pts
      && (!us[j].config ==> n + 1 < |frames| && us[j].data == frames[n].buffer && us[j].pts == frames[n].pts)
      && (r.value[k].mark <==>
            !us[j].config && LastOfUnit(us, s.mtu, k) && frames[n].pts != frames[n + 1].pts)
  {
    var us := Units(xs, beyond);
    PacketAt(s, xs, beyond, k);
    SlotOfUnit(us, s.mtu, k);
    UnitIsFrame(xs, beyond, UnitOf(us, s.mtu, k));
  }

  /**
   The picture parameter set is sent as it is held exactly when the sequence
   parameter set has the same length, whatever memory holds after it.
   */
  lemma {:induction false} PictureSetIntact(sps: Nalu, pps: Nalu, pts: nat, beyond: nat -> byte)
    ensures var us := ConfigUnits(Some(sps), Some(pps), pts, beyond);
            && |us| == 2 && us[0].data == sps.buffer
            && (us[1].data == pps.buffer <==> |sps.buffer| == |pps.buffer|)
  {
    assert pps.buffer[..|pps.buffer|] == pps.buffer;
  }

  /** A longer picture parameter set is cut short. */
  lemma {:induction false} PictureSetCut(beyond: nat -> byte)
    ensures var sps, pps := Nalu([0x67, 0x42], 0), Nalu([0x68, 0xCE, 0x38], 0);
            && sps.NalType() == NAL_SPS && pps.NalType() == NAL_PPS
            && ConfigUnits(Some(sps), Some(pps), 0, beyond)[1].data == [0x68, 0xCE]
  {
  }
}
