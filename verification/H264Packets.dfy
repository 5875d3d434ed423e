/**
 The packets one NAL unit is sent in: a single-unit aggregation packet when it
 fits, fragments otherwise; and what a receiver makes of them.
 */
module H264Packets {
  import opened Bytes
  import opened RtpReceiver
  import opened Options

  /** The first byte of the unit; a C string has a terminator to read when it is empty. */
  function HeaderByte(nal: seq<byte>): byte {
    if nal == [] then 0 else nal[0]
  }

  const RTP_HEADER: nat := 12

  predicate ValidMtu(mtu: nat) {
    14 < mtu < U16
  }

  /** The bytes of a unit that one fragment has room for. */
  function Room(mtu: nat): nat
    requires ValidMtu(mtu)
  {
    mtu - RTP_HEADER - 2
  }

  function StapA(nal: seq<byte>): seq<byte> {
    [HeaderByte(nal) / 32 * 32 + 24] + Put16(|nal| % U16) + nal
  }

  // ---- Fragmentation

  /** One round of the fragmenting loop: the stretch of the unit it copies, and its flags. */
  datatype Piece = Piece(offset: nat, size: nat, start: bool, end: bool)

  /**
   The rounds of the loop for a unit of `len` bytes, or None if some round copies
   past the end of the unit. The size of the last piece is an unsigned difference,
   so an offset beyond `len` is such a round too.
   */
  function PiecesFrom(len: nat, room: nat, offset: nat, start: bool): Option<seq<Piece>>
    requires room > 0
    decreases if offset <= len then len - offset + 1 else 0
  {
    if !start && len <= offset + room then
      if len < offset then None else Some([Piece(offset, len - offset, false, true)])
    else if len < offset + room then
      None
    else
      match PiecesFrom(len, room, offset + room, false)
      case None => None
      case Some(rest) => Some([Piece(offset, room, start, false)] + rest)
  }

  function Pieces(len: nat, room: nat): Option<seq<Piece>>
    requires room > 0
  {
    PiecesFrom(len, room, 1, true)
  }

  lemma {:induction false} LaterPieces(len: nat, room: nat, offset: nat)
    requires 0 < room && offset <= len
    ensures var p := PiecesFrom(len, room, offset, false);
            && p.Some? && |p.value| >= 1
            && (forall i :: 0 <= i < |p.value| ==>
                 && !p.value[i].start && (p.value[i].end <==> i == |p.value| - 1)
                 && p.value[i].size <= room
                 && p.value[i].offset == offset + i * room
                 && p.value[i].offset + p.value[i].size <= len)
            && p.value[|p.value| - 1].offset + p.value[|p.value| - 1].size == len
    decreases len - offset
  {
    if len > offset + room {
      LaterPieces(len, room, offset + room);
      var rest := PiecesFrom(len, room, offset + room, false).value;
      var p := PiecesFrom(len, room, offset, false).value;
      forall i | 0 <= i < |p|
        ensures p[i].offset == offset + i * room
      {
        if i > 0 {
          assert p[i] == rest[i - 1];
          assert (i - 1) * room + room == i * room;
        }
      }
    }
  }

  /** Among the lengths that are fragmented at all, one leaves the first fragment a byte short. */
  lemma {:induction false} FragmentableExactly(len: nat, mtu: nat)
    requires ValidMtu(mtu) && len + 3 > mtu - RTP_HEADER
    ensures Pieces(len, Room(mtu)).Some? <==> len != mtu - 14
  {
    if len > Room(mtu) {
      LaterPieces(len, Room(mtu), 1 + Room(mtu));
    }
  }

  /** The gap, on a concrete unit: 1386 bytes with the usual limit of 1400. */
  lemma {:induction false} FragmentGap()
    ensures 1386 + 3 > 1400 - RTP_HEADER && Pieces(1386, Room(1400)) == None
  {
  }

  /**
   Fragments of a unit: at least two; the start flag on exactly the first and the
   end flag on exactly the last; no packet over the limit; and one after another
   they cover every byte after the header byte.
   */
  lemma {:induction false} FragmentsAreWellFormed(len: nat, mtu: nat)
    requires ValidMtu(mtu) && len + 3 > mtu - RTP_HEADER && len != mtu - 14
    ensures var p := Pieces(len, Room(mtu));
            && p.Some? && |p.value| >= 2
            && (forall i :: 0 <= i < |p.value| ==>
                 && (p.value[i].start <==> i == 0)
                 && (p.value[i].end <==> i == |p.value| - 1)
                 && RTP_HEADER + 2 + p.value[i].size <= mtu
                 && p.value[i].offset == 1 + i * Room(mtu)
                 && (i + 1 < |p.value| ==> p.value[i].size == Room(mtu)))
            && p.value[|p.value| - 1].offset + p.value[|p.value| - 1].size == len
  {
    var room := Room(mtu);
    LaterPieces(len, room, 1 + room);
    var rest := PiecesFrom(len, room, 1 + room, false).value;
    var p := Pieces(len, room).value;
    assert p == [Piece(1, room, true, false)] + rest;
    forall i | 0 <= i < |p|
      ensures p[i].offset == 1 + i * room
      ensures i + 1 < |p| ==> p[i].size == room
    {
      if i > 0 {
        assert p[i] == rest[i - 1];
        assert (i - 1) * room + room == i * room;
        LaterPieceSizes(len, room, 1 + room, i - 1);
      }
    }
  }

  lemma {:induction false} LaterPieceSizes(len: nat, room: nat, offset: nat, i: nat)
    requires 0 < room && offset <= len
    requires PiecesFrom(len, room, offset, false).Some? && i < |PiecesFrom(len, room, offset, false).value|
    ensures i + 1 < |PiecesFrom(len, room, offset, false).value| ==>
              PiecesFrom(len, room, offset, false).value[i].size == room
    decreases i
  {
    if i > 0 {
      LaterPieceSizes(len, room, offset + room, i - 1);
    }
  }

  function Flags(p: Piece, header: byte): byte {
    (if p.start then 128 else 0) + (if p.end then 64 else 0) + header % 32
  }

  function FuA(nal: seq<byte>, p: Piece): seq<byte>
    requires p.offset + p.size <= |nal|
  {
    [HeaderByte(nal) / 32 * 32 + 28, Flags(p, HeaderByte(nal))] + nal[p.offset..p.offset + p.size]
  }

  function FuAs(nal: seq<byte>, pieces: seq<Piece>): seq<seq<byte>>
    requires forall p :: p in pieces ==> p.offset + p.size <= |nal|
  {
    if pieces == [] then [] else [FuA(nal, pieces[0])] + FuAs(nal, pieces[1..])
  }

  // ---- The payloads of a unit

  predicate Aggregated(nal: seq<byte>, mtu: nat) {
    |nal| + 3 <= mtu - RTP_HEADER
  }

  /** The unit can be sent: it does not have the one length that cannot be fragmented. */
  predicate Sendable(nal: seq<byte>, mtu: nat) {
    ValidMtu(mtu) && |nal| != mtu - 14
  }

  lemma {:induction false} PiecesInRange(nal: seq<byte>, mtu: nat)
    requires Sendable(nal, mtu) && !Aggregated(nal, mtu)
    ensures var p := Pieces(|nal|, Room(mtu));
            p.Some? && forall q :: q in p.value ==> q.offset + q.size <= |nal|
  {
    LaterPieces(|nal|, Room(mtu), 1 + Room(mtu));
  }

  function Payloads(nal: seq<byte>, mtu: nat): seq<seq<byte>>
    requires Sendable(nal, mtu)
  {
    if Aggregated(nal, mtu) then [StapA(nal)]
    else
      PiecesInRange(nal, mtu);
      FuAs(nal, Pieces(|nal|, Room(mtu)).value)
  }

  lemma {:induction false} StapAReceived(nal: seq<byte>, r: Reception)
    requires |nal| < U16 && r.Reception? && r.pending.None?
    ensures Receive(r, StapA(nal)) == r.(nals := r.nals + [nal])
  {
    Get16Put16(|nal|);
    var units := StapA(nal)[1..];
    assert units == Put16(|nal|) + nal;
    assert units[..2] == Put16(|nal|) && units[2..2 + |nal|] == nal && units[2 + |nal|..] == [];
    assert ParseUnits(units[2 + |nal|..]) == Some([]);
  }

  /** A fragment extends what the receiver has of the unit by the stretch it carries. */
  lemma {:induction false} FuAReceived(nal: seq<byte>, p: Piece, r: Reception)
    requires nal != [] && p.offset + p.size <= |nal| && !(p.start && p.end)
    requires r.Reception? && r.pending == if p.start then None else Some(nal[..p.offset])
    requires p.offset > 0 && (p.start ==> p.offset == 1)
    ensures var got := nal[..p.offset + p.size];
            Receive(r, FuA(nal, p)) == if p.end then Reception(None, r.nals + [got]) else r.(pending := Some(got))
  {
    var payload := FuA(nal, p);
    assert payload[2..] == nal[p.offset..p.offset + p.size];
    assert nal[..p.offset] + payload[2..] == nal[..p.offset + p.size];
    assert nal[..1] == [nal[0]];
    FlagsRead(p, nal[0]);
  }

  lemma {:induction false} FlagsRead(p: Piece, header: byte)
    requires !(p.start && p.end)
    ensures var flags, indicator := Flags(p, header), header / 32 * 32 + 28;
            && (flags / 128 == 1 <==> p.start) && (flags / 64 % 2 == 1 <==> p.end)
            && indicator % 32 == 28 && indicator / 32 * 32 + flags % 32 == header
  {
  }

  lemma {:induction false} ReceiveFirst(nal: seq<byte>, p: Piece, rest: seq<Piece>, r: Reception)
    requires p.offset + p.size <= |nal| && forall q :: q in rest ==> q.offset + q.size <= |nal|
    ensures forall q :: q in [p] + rest ==> q.offset + q.size <= |nal|
    ensures ReceiveAll(r, FuAs(nal, [p] + rest)) == ReceiveAll(Receive(r, FuA(nal, p)), FuAs(nal, rest))
  {
    assert ([p] + rest)[1..] == rest;
    assert FuAs(nal, [p] + rest)[1..] == FuAs(nal, rest);
  }

  lemma {:induction false} LaterPiecesReceived(nal: seq<byte>, room: nat, offset: nat, r: Reception)
    requires 0 < room && 0 < offset <= |nal|
    requires r.Reception? && r.pending == Some(nal[..offset])
    ensures var p := PiecesFrom(|nal|, room, offset, false);
            && p.Some? && (forall q :: q in p.value ==> q.offset + q.size <= |nal|)
            && ReceiveAll(r, FuAs(nal, p.value)) == Reception(None, r.nals + [nal])
    decreases |nal| - offset
  {
    if |nal| <= offset + room {
      var last := Piece(offset, |nal| - offset, false, true);
      FuAReceived(nal, last, r);
      assert nal[..|nal|] == nal;
      ReceiveFirst(nal, last, [], r);
      assert [last] + [] == [last];
    } else {
      var first, next := Piece(offset, room, false, false), offset + room;
      FuAReceived(nal, first, r);
      LaterPiecesReceived(nal, room, next, r.(pending := Some(nal[..next])));
      ReceiveFirst(nal, first, PiecesFrom(|nal|, room, next, false).value, r);
    }
  }

  /** A receiver gets back exactly the unit that was sent, header byte included. */
  lemma {:induction false} UnitReceived(nal: seq<byte>, mtu: nat, r: Reception)
    requires Sendable(nal, mtu) && r.Reception? && r.pending.None?
    ensures ReceiveAll(r, Payloads(nal, mtu)) == r.(nals := r.nals + [nal])
  {
    var payloads := Payloads(nal, mtu);
    if Aggregated(nal, mtu) {
      StapAReceived(nal, r);
      assert payloads[1..] == [];
    } else {
      var room := Room(mtu);
      PiecesInRange(nal, mtu);
      var first := Piece(1, room, true, false);
      FuAReceived(nal, first, r);
      LaterPiecesReceived(nal, room, 1 + room, r.(pending := Some(nal[..1 + room])));
      ReceiveFirst(nal, first, PiecesFrom(|nal|, room, 1 + room, false).value, r);
    }
  }

  lemma {:induction false} FuAsLength(nal: seq<byte>, pieces: seq<Piece>)
    requires forall p :: p in pieces ==> p.offset + p.size <= |nal|
    ensures |FuAs(nal, pieces)| == |pieces|
    ensures forall i :: 0 <= i < |pieces| ==> FuAs(nal, pieces)[i] == FuA(nal, pieces[i])
    decreases |pieces|
  {
    if pieces != [] {
      FuAsLength(nal, pieces[1..]);
    }
  }

  /** Every packet of a unit keeps within the limit; there is at least one. */
  lemma {:induction false} PayloadsFit(nal: seq<byte>, mtu: nat)
    requires Sendable(nal, mtu)
    ensures |Payloads(nal, mtu)| >= 1
    ensures forall p :: p in Payloads(nal, mtu) ==> RTP_HEADER + |p| <= mtu
  {
    if !Aggregated(nal, mtu) {
      PiecesInRange(nal, mtu);
      FragmentsAreWellFormed(|nal|, mtu);
      FuAsLength(nal, Pieces(|nal|, Room(mtu)).value);
    }
  }
}
