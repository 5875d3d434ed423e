/**
 RtspMediaStream: replays a file of H.264 units for ever, paced by a clock.
 Opening the file and the wall clock are parameters.
 */
module MediaStream {
  import opened Bytes
  import opened H264Packets
  import opened H264Encoder
  import opened AnnexB
  import opened Options
  import opened Sequences
  import Avc

  const FRAME_MS: nat := 40
  const TICKS_PER_MS: nat := 90
  const FRAME_TICKS: nat := 3600
  const LAG_US: nat := 50000

  function AsNalu(nal: seq<byte>): Nalu {
    Nalu(nal, 0)
  }

  /** The index, among `n`, that the `i`-th comes to when going round. */
  function Round(i: nat, n: nat): (r: nat)
    requires n > 0
    ensures r < n
    decreases i
  {
    if i < n then i else Round(i - n, n)
  }

  /** How many of the units fed advance the clock. */
  function Pictures(xs: seq<Nalu>): nat {
    if xs == [] then 0
    else Pictures(xs[..|xs| - 1]) + (if IsPicture(xs[|xs| - 1].buffer) then 1 else 0)
  }

  /** The units are those of the file, over and over, each with the time its predecessors add up to. */
  ghost predicate Cyclic(fed: seq<Nalu>, us: seq<seq<byte>>)
    requires us != []
    decreases |fed|
  {
    fed == [] ||
    var before, x := fed[..|fed| - 1], fed[|fed| - 1];
    && Cyclic(before, us)
    && x.buffer == us[Round(|before|, |us|)]
    && x.pts == Pictures(before) * FRAME_TICKS % U32
  }

  /** In other words: the `i`-th unit fed is the `i`-th of the file, going round. */
  lemma {:induction false} CyclicAt(fed: seq<Nalu>, us: seq<seq<byte>>, i: nat)
    requires us != [] && Cyclic(fed, us) && i < |fed|
    ensures fed[i].buffer == us[Round(i, |us|)] && fed[i].pts == Pictures(fed[..i]) * 3600 % U32
    decreases |fed|
  {
    if i < |fed| - 1 {
      CyclicAt(fed[..|fed| - 1], us, i);
      assert fed[..|fed| - 1][..i] == fed[..i];
    }
  }

  /** A file that can be replayed: there is a start code in front. Its units are `TakeAll`. */
  predicate IsFile(s: seq<byte>) {
    s != [] && CodeAt(s, 0)
  }

  /** Each unit can be sent. */
  predicate AllFitting(us: seq<seq<byte>>, mtu: nat) {
    forall u :: u in us ==> Sendable(u, mtu)
  }

  /** The first slice of a picture, as the code tells it; see TestsExactly. */
  predicate IsPicture(u: seq<byte>) {
    AsNalu(u).DecodeAble()
  }

  predicate HasPicture(us: seq<seq<byte>>) {
    exists d :: 0 <= d < |us| && IsPicture(us[d])
  }

  /** How many units lie between unit `k` and unit `d`, going round. */
  function Ahead(k: nat, d: nat, n: nat): nat
    requires k < n && d < n
  {
    if k <= d then d - k else n - k + d
  }

  lemma {:induction false} AheadStep(k: nat, d: nat, n: nat)
    requires k < n && d < n && k != d
    ensures Ahead(if k + 1 == n then 0 else k + 1, d, n) < Ahead(k, d, n)
  {
  }

  /** Where the k-th unit of a file begins, start code included. */
  function Offset(s: seq<byte>, k: nat): nat
    requires k <= |TakeAll(s)|
    decreases k
  {
    if k == 0 then 0 else TakeNal(s).consumed + Offset(s[TakeNal(s).consumed..], k - 1)
  }

  lemma {:induction false} FirstTaken(s: seq<byte>)
    requires IsFile(s)
    ensures var n, rest := TakeNal(s).consumed, s[TakeNal(s).consumed..];
      && 0 < n <= |s| && Coded(rest) && Offset(s, 1) == n && TakeAll(s) == [TakeNal(s).nal] + TakeAll(rest)
      && (n == |s| <==> |TakeAll(s)| == 1)
  {
    RestIsCoded(s);
    var rest := s[TakeNal(s).consumed..];
    assert Offset(rest, 0) == 0;
    assert rest != [] ==> TakeAll(rest) != [];
  }

  lemma {:induction false} LaterOffset(s: seq<byte>, k: nat)
    requires IsFile(s) && 0 < k < |TakeAll(s)|
    ensures var n, rest := TakeNal(s).consumed, s[TakeNal(s).consumed..];
      && k - 1 < |TakeAll(rest)| == |TakeAll(s)| - 1 && TakeAll(s)[k] == TakeAll(rest)[k - 1]
      && Offset(s, k) == n + Offset(rest, k - 1) && Offset(s, k + 1) == n + Offset(rest, k)
  {
    FirstTaken(s);
  }

  /** The file from its k-th unit on. */
  function From(s: seq<byte>, k: nat): seq<byte>
    requires k <= |TakeAll(s)|
    decreases k
  {
    if k == 0 then s else From(s[TakeNal(s).consumed..], k - 1)
  }

  lemma {:induction false} TailOfTail(s: seq<byte>, n: nat, k: nat)
    requires n + k <= |s|
    ensures s[n..][k..] == s[n + k..]
  {
  }

  lemma {:induction false} FromOffset(s: seq<byte>, k: nat)
    requires Coded(s) && k <= |TakeAll(s)|
    ensures Offset(s, k) <= |s| && From(s, k) == s[Offset(s, k)..]
    decreases k
  {
    if k > 0 {
      FirstTaken(s);
      var n := TakeNal(s).consumed;
      FromOffset(s[n..], k - 1);
      TailOfTail(s, n, Offset(s[n..], k - 1));
    }
  }

  lemma {:induction false} TakeFrom(s: seq<byte>, k: nat)
    requires Coded(s) && k < |TakeAll(s)|
    ensures Offset(s, k) < Offset(s, k + 1) <= |s|
    ensures TakeNal(From(s, k)) == Taken(Offset(s, k + 1) - Offset(s, k), TakeAll(s)[k])
    ensures Offset(s, k + 1) == |s| <==> k + 1 == |TakeAll(s)|
    decreases k
  {
    FirstTaken(s);
    if k > 0 {
      LaterOffset(s, k);
      TakeFrom(s[TakeNal(s).consumed..], k - 1);
    }
  }

  /** Taking at the place of a unit gives that unit and leads to the next, or to the end of the file. */
  lemma {:induction false} TakeAt(s: seq<byte>, k: nat)
    requires Coded(s) && k < |TakeAll(s)|
    ensures Offset(s, k) < Offset(s, k + 1) <= |s|
    ensures TakeNal(s[Offset(s, k)..]) == Taken(Offset(s, k + 1) - Offset(s, k), TakeAll(s)[k])
    ensures Offset(s, k + 1) == |s| <==> k + 1 == |TakeAll(s)|
  {
    FromOffset(s, k);
    TakeFrom(s, k);
  }

  // ---- Files put together

  /** A file put together from clean, separated units is replayed unit by unit. */
  lemma {:induction false} JoinedFile(us: seq<CodedNal>, fed: seq<Nalu>, i: nat)
    requires us != [] && AllClean(us) && Separated(us)
    ensures IsFile(Join(us)) && TakeAll(Join(us)) == Nals(us)
    ensures Cyclic(fed, TakeAll(Join(us))) && i < |fed| ==> fed[i].buffer == us[Round(i, |us|)].nal
  {
    SplitUndoesJoin(us);
    JoinStart(us);
    if Cyclic(fed, Nals(us)) && i < |fed| {
      CyclicAt(fed, Nals(us), i);
    }
  }

  // ---- The clock

  lemma {:induction false} CyclicOfLength(us: seq<seq<byte>>, n: nat) returns (fed: seq<Nalu>)
    requires us != []
    ensures Cyclic(fed, us) && |fed| == n
  {
    if n == 0 {
      return [];
    }
    fed := CyclicOfLength(us, n - 1);
    var x := Nalu(us[Round(n - 1, |us|)], Pictures(fed) * FRAME_TICKS % U32);
    CyclicOneMore(fed, x, us);
    fed := fed + [x];
  }

  lemma {:induction false} NoPictures(fed: seq<Nalu>, us: seq<seq<byte>>)
    requires us != [] && Cyclic(fed, us) && !HasPicture(us)
    ensures Pictures(fed) == 0
    decreases |fed|
  {
    if fed != [] {
      NoPictures(fed[..|fed| - 1], us);
      assert !IsPicture(us[Round(|fed| - 1, |us|)]);
    }
  }

  /** The clock ever moves exactly when a unit of the file is a slice with first_mb_in_slice 0. */
  lemma {:induction false} ClockMovesExactly(us: seq<seq<byte>>)
    requires us != []
    ensures (exists fed :: Cyclic(fed, us) && Pictures(fed) > 0) <==>
            exists d :: 0 <= d < |us| && 1 <= Avc.UnitType(us[d]) <= 5 && Avc.FirstMb(us[d]) == Some(0)
  {
    forall d | 0 <= d < |us|
      ensures IsPicture(us[d]) <==> 1 <= Avc.UnitType(us[d]) <= 5 && Avc.FirstMb(us[d]) == Some(0)
    {
      TestsExactly(AsNalu(us[d]));
    }
    ClockMovesWithPictures(us);
  }

  lemma {:induction false} ClockMovesWithPictures(us: seq<seq<byte>>)
    requires us != []
    ensures (exists fed :: Cyclic(fed, us) && Pictures(fed) > 0) <==> HasPicture(us)
  {
    if HasPicture(us) {
      var d :| 0 <= d < |us| && IsPicture(us[d]);
      var fed := CyclicOfLength(us, d + 1);
      assert fed[d].buffer == us[d];
      assert Pictures(fed) > 0;
    } else {
      forall fed | Cyclic(fed, us)
        ensures Pictures(fed) == 0
      {
        NoPictures(fed, us);
      }
    }
  }

  /** Among units fed, each slice with first_mb_in_slice 0 moves the clock, and nothing else does. */
  lemma {:induction false} PicturesCount(xs: seq<Nalu>, x: Nalu)
    ensures Pictures(xs + [x]) ==
            Pictures(xs) + if 1 <= Avc.UnitType(x.buffer) <= 5 && Avc.FirstMb(x.buffer) == Some(0) then 1 else 0
  {
    assert (xs + [x])[..|xs|] == xs;
    TestsExactly(x);
  }

  /** What the loop compares with the time elapsed, after some pictures: a product that wraps at 32 bits. */
  function ClockAt(pictures: nat): (c: nat)
    ensures c < U32
  {
    pictures * FRAME_MS % U32 * 1000 % U32
  }

  /** The latest the clock ever shows, and a number of pictures after which it does. */
  const LATEST: nat := U32 - 64
  const LATEST_PICTURE: nat := 17072495
  const PERIOD: nat := 0x400_0000

  /** How many pictures there are to the next time that the clock shows its latest. */
  function ToLatest(pictures: nat): nat {
    (LATEST_PICTURE - pictures) % PERIOD
  }

  lemma {:induction false} ClockOf(p: nat)
    ensures ClockAt(p) == p * 40000 % U32
  {
    var q, t := p * FRAME_MS / U32, p * FRAME_MS % U32;
    assert p * 40000 == q * 1000 * U32 + t * 1000;
    WholeTurns(q * 1000, t * 1000);
  }

  lemma {:induction false} WholeTurns(q: int, x: int)
    ensures (q * U32 + x) % U32 == x % U32
  {
  }

  lemma {:induction false} LatestClock(p: nat)
    requires ToLatest(p) == 0
    ensures ClockAt(p) == LATEST
  {
    ClockOf(p);
    var m := (LATEST_PICTURE - p) / PERIOD;
    assert p * 40000 == -m * 625 * U32 + LATEST_PICTURE * 40000;
    WholeTurns(-m * 625, LATEST_PICTURE * 40000);
  }

  lemma {:induction false} OnePictureMore(p: nat)
    ensures ClockAt(p + 1) == (ClockAt(p) + 40000) % U32
  {
    ClockOf(p);
    ClockOf(p + 1);
    SumOfTurns(p * 40000, 40000);
  }

  lemma {:induction false} SumOfTurns(a: nat, b: nat)
    ensures (a % U32 + b) % U32 == (a + b) % U32
  {
    WholeTurns(a / U32, a % U32 + b);
  }

  lemma {:induction false} OneLess(p: nat)
    requires ToLatest(p) > 0
    ensures ToLatest(p + 1) == ToLatest(p) - 1
  {
  }

  lemma {:induction false} NeverLater(p: nat)
    ensures ClockAt(p) <= LATEST
  {
    ClockOf(p);
    var q, t := p * 625 / PERIOD, p * 625 % PERIOD;
    assert p * 40000 == q * U32 + t * 64;
    WholeTurns(q, t * 64);
  }

  /** The clock gets to a time, in microseconds, exactly if it is at most 64 below 2^32. */
  lemma {:induction false} ClockReaches(time: int)
    ensures (exists p :: ClockAt(p) >= time) <==> time <= LATEST
  {
    LatestClock(LATEST_PICTURE);
    if time > LATEST {
      forall p: nat
        ensures ClockAt(p) < time
      {
        NeverLater(p);
      }
    }
  }

  /** The time stamp of a unit, in ticks. */
  lemma {:induction false} Ticks(p: nat)
    ensures p * FRAME_MS % U32 * TICKS_PER_MS % U32 == p * FRAME_TICKS % U32
  {
    var q, t := p * FRAME_MS / U32, p * FRAME_MS % U32;
    assert p * FRAME_TICKS == q * TICKS_PER_MS * U32 + t * TICKS_PER_MS;
    WholeTurns(q * TICKS_PER_MS, t * TICKS_PER_MS);
  }

  lemma {:induction false} TimePasses(p: nat)
    requires ClockAt(p) != LATEST
    ensures ToLatest(p + 1) < ToLatest(p) && ClockAt(p + 1) <= ClockAt(p) + FRAME_MS * 1000
  {
    if ToLatest(p) == 0 {
      LatestClock(p);
    }
    OneLess(p);
    OnePictureMore(p);
  }

  /** A unit that is not the `d`-th brings that one closer. */
  lemma {:induction false} StepsCloser(i: nat, d: nat, n: nat)
    requires d < n && Round(i, n) != d
    ensures Ahead(Round(i + 1, n), d, n) < Ahead(Round(i, n), d, n)
  {
    NextRound(i, n);
    AheadStep(Round(i, n), d, n);
  }

  class RtspMediaStream {
    const stream: seq<byte>
    const encoder: H264RtpEncoder
    ghost const units: seq<seq<byte>>   // the units of the file
    var pos: nat
    var size: nat
    var timeStamp: nat

    /** The cursor is in front of the unit to be fed next. */
    ghost predicate AtUnit(k: nat)
      requires units == TakeAll(stream) && k < |units|
      reads this
    {
      pos + size == |stream| && pos == Offset(stream, k)
    }

    /** The cursor is behind that unit. */
    ghost predicate PastUnit(k: nat)
      requires units == TakeAll(stream) && k < |units|
      reads this
    {
      pos + size == |stream| && pos == Offset(stream, k + 1)
    }

    /** The clock and the times of the units agree with what has been fed. */
    ghost predicate InStep(fed: seq<Nalu>)
      requires units != []
      reads this
    {
      Cyclic(fed, units) && timeStamp == Pictures(fed) * 40 % U32
    }

    ghost predicate Valid()
      reads this, encoder
    {
      && encoder.Valid() && IsFile(stream) && units == TakeAll(stream)
      && AtUnit(Round(|encoder.fed|, |units|))
      && InStep(encoder.fed)
    }

    constructor (stream: seq<byte>, session: Session, beyond: nat -> byte)
      requires session.Valid()
      ensures this.stream == stream && encoder.fed == [] && fresh(encoder) && encoder.session == session
      ensures units == TakeAll(stream)
      ensures IsFile(stream) ==> Valid()
    {
      var e := new H264RtpEncoder(session, beyond);
      this.stream, encoder, units := stream, e, TakeAll(stream);
      pos, size, timeStamp := 0, |stream|, 0;
    }

    /** Takes a unit off the front and keeps it if it is a parameter set. Nothing is taken without a start code. */
    method TakeUnit(data: seq<byte>, sps0: Option<seq<byte>>, pps0: Option<seq<byte>>, ghost before: seq<seq<byte>>)
        returns (taken: nat, sps: Option<seq<byte>>, pps: Option<seq<byte>>, ghost seen: seq<seq<byte>>)
      requires data != [] && SetsAre(before, sps0, pps0)
      ensures taken <= |data| && SetsAre(seen, sps, pps)
      ensures if taken == 0 then TakeNal(data) == NoCode && sps == sps0 && pps == pps0 && seen == before
              else |seen| > 0 && seen[..|seen| - 1] == before
      ensures before + TakeAll(data) == if taken == 0 then seen else seen + TakeAll(data[taken..])
      ensures taken == 0 <==> !CodeAt(data, 0)
      ensures taken > 0 ==> Coded(data[taken..])
    {
      var nalu := new H264Nalu();
      sps, pps, seen := sps0, pps0, before;
      taken := nalu.GetAnnexbNalu(data);
      if taken > 0 {
        RestIsCoded(data);
        OneMoreSeen(before, nalu.buffer);
        Assoc(before, [nalu.buffer], TakeAll(data[taken..]));
        seen := before + [nalu.buffer];
        if nalu.nalUnitType == NAL_SPS {
          sps := Some(nalu.buffer);
        } else if nalu.nalUnitType == NAL_PPS {
          pps := Some(nalu.buffer);
        }
      }
    }

    /**
     The parameter sets for the session description, of any file: the units are
     taken one after another until one of each type has been seen, and the latest of
     each is kept. False when there is no start code in front; the loop of the source
     then takes nothing for ever.
     */
    method ScanParameterSets()
        returns (ok: bool, sps: Option<seq<byte>>, pps: Option<seq<byte>>, ghost seen: seq<seq<byte>>)
      ensures ok <==> stream == [] || CodeAt(stream, 0)
      ensures seen <= TakeAll(stream) && SetsAre(seen, sps, pps)
      ensures seen != [] ==> Lacking(seen[..|seen| - 1])
      ensures sps.None? || pps.None? ==> seen == TakeAll(stream)
    {
      var data := stream;
      ok, sps, pps, seen := true, None, None, [];
      while |data| > 0 && (sps.None? || pps.None?)
        invariant TakeAll(stream) == seen + TakeAll(data)
        invariant data == stream || (Coded(data) && Coded(stream))
        invariant SetsAre(seen, sps, pps)
        invariant seen != [] ==> Lacking(seen[..|seen| - 1])
        decreases |data|
      {
        var taken;
        taken, sps, pps, seen := TakeUnit(data, sps, pps, seen);
        if taken == 0 {
          return false, sps, pps, seen;
        }
        data := data[taken..];
      }
    }

    /** The clock, in microseconds, as the loop computes it. */
    function Clock(): nat
      reads this
    {
      timeStamp * 1000 % U32
    }

    /**
     Feeds the encoder until the clock has caught up with `elapsed` microseconds,
     less a lag. If it has not yet, it will: unit `d` of the file is the first of a
     picture, and the clock gets to that time before it wraps for ever. False when
     the encoder is given a unit that it cannot fragment.
     */
    method ReadFrame(elapsed: int, ghost d: nat) returns (ok: bool)
      requires Valid()
      requires Clock() >= elapsed - 50000 ||
               (elapsed - 50000 <= LATEST && d < |units| && IsPicture(units[d]))
      modifies this, encoder
      ensures AllFitting(units, encoder.session.mtu) ==> ok
      ensures ok ==> Valid() && old(encoder.fed) <= encoder.fed && Clock() >= elapsed - 50000
      ensures ok && encoder.fed != old(encoder.fed) ==> Clock() < elapsed - 50000 + 40000
      ensures old(Clock()) >= elapsed - 50000 ==> ok && encoder.fed == old(encoder.fed)
    {
      ghost var fed0, clock0 := encoder.fed, Clock();
      while Clock() < elapsed - LAG_US
        invariant Valid() && fed0 <= encoder.fed
        invariant Clock() < elapsed - LAG_US ==>
          elapsed - LAG_US <= LATEST && d < |units| && IsPicture(units[d])
        invariant encoder.fed != fed0 ==> Clock() < elapsed - LAG_US + FRAME_MS * 1000
        invariant encoder.fed == fed0 ==> Clock() == clock0
        invariant clock0 >= elapsed - LAG_US ==> encoder.fed == fed0
        decreases ToLatest(Pictures(encoder.fed)), Left(d)
      {
        var fits := FeedTowards(d);
        if !fits {
          return false;
        }
      }
      ok := true;
    }

    /** How far the next unit to be fed is from unit `d`. */
    ghost function Left(d: nat): nat
      reads this, encoder
    {
      if d < |units| then Ahead(Round(|encoder.fed|, |units|), d, |units|) else 0
    }

    method FeedTowards(ghost d: nat) returns (ok: bool)
      requires Valid() && Clock() != LATEST
      requires d < |units| && IsPicture(units[d])
      modifies this, encoder
      ensures AllFitting(units, encoder.session.mtu) ==> ok
      ensures ok ==> Valid() && old(encoder.fed) < encoder.fed
      ensures ok ==>
        || (Pictures(encoder.fed) == old(Pictures(encoder.fed)) && Clock() == old(Clock()) && Left(d) < old(Left(d)))
        || (ToLatest(Pictures(encoder.fed)) < old(ToLatest(Pictures(encoder.fed))) &&
            Clock() <= old(Clock()) + FRAME_MS * 1000)
    {
      ghost var i := |encoder.fed|;
      TimePasses(Pictures(encoder.fed));
      ok := FeedOne();
      if ok && Round(i, |units|) != d {
        StepsCloser(i, d, |units|);
      }
    }

    /** The next unit of the file, with the time so far. */
    ghost function NextUnit(): Nalu
      requires units != []
      reads this, encoder
    {
      Nalu(units[Round(|encoder.fed|, |units|)], timeStamp * TICKS_PER_MS % U32)
    }

    /** One round of the loop. False when the encoder finds a unit due that it cannot fragment. */
    method FeedOne() returns (ok: bool)
      requires Valid()
      modifies this, encoder
      ensures ok <==> AllSendable(Due(old(encoder.State()), old(NextUnit()), encoder.beyond), encoder.session.mtu)
      ensures AllFitting(units, encoder.session.mtu) ==> ok
      ensures ok ==> Valid() && encoder.fed == old(encoder.fed) + [old(NextUnit())]
      ensures ok ==>
        Pictures(encoder.fed) == Pictures(old(encoder.fed)) + if IsPicture(old(NextUnit()).buffer) then 1 else 0
    {
      ghost var fed := encoder.fed;
      var buffer := NextNal(Round(|fed|, |units|));
      var x := Nalu(buffer, timeStamp * TICKS_PER_MS % U32);
      assert x == NextUnit();
      ok := Encode(x);
      if ok {
        Move(x, fed);
      }
    }

    /** The clock and the cursor after a unit has been fed. */
    method Move(x: Nalu, ghost fed: seq<Nalu>)
      requires IsFile(stream) && units == TakeAll(stream) && InStep(fed)
      requires x.buffer == units[Round(|fed|, |units|)] && x.pts == timeStamp * TICKS_PER_MS % U32
      requires PastUnit(Round(|fed|, |units|))
      modifies this
      ensures InStep(fed + [x]) && AtUnit(Round(|fed| + 1, |units|))
      ensures Pictures(fed + [x]) == Pictures(fed) + if IsPicture(x.buffer) then 1 else 0
    {
      AdvanceClock(x, fed);
      GoRound(|fed|);
    }

    method Encode(x: Nalu) returns (ok: bool)
      requires encoder.Valid() && units != [] && Cyclic(encoder.fed, units)
      modifies encoder
      ensures ok <==> AllSendable(Due(old(encoder.State()), x, encoder.beyond), encoder.session.mtu)
      ensures AllFitting(units, encoder.session.mtu) ==> ok
      ensures ok ==> encoder.Valid() && encoder.fed == old(encoder.fed) + [x]
    {
      CyclicFits(encoder.fed, units, encoder.session.mtu);
      DueIsSendable(encoder.fed, x, encoder.beyond, encoder.session.mtu);
      ok := encoder.InputFrame(x);
    }

    method AdvanceClock(x: Nalu, ghost fed: seq<Nalu>)
      requires units != [] && InStep(fed)
      requires x.buffer == units[Round(|fed|, |units|)] && x.pts == timeStamp * TICKS_PER_MS % U32
      modifies this`timeStamp
      ensures InStep(fed + [x])
      ensures Pictures(fed + [x]) == Pictures(fed) + if IsPicture(x.buffer) then 1 else 0
    {
      Ticks(Pictures(fed));
      CyclicOneMore(fed, x, units);
      if x.DecodeAble() {
        SumOfTurns(Pictures(fed) * FRAME_MS, FRAME_MS);
        timeStamp := (timeStamp + FRAME_MS) % U32;
      }
    }

    /** Takes the next unit of the file. */
    method NextNal(ghost k: nat) returns (nal: seq<byte>)
      requires IsFile(stream) && units == TakeAll(stream) && k < |units| && AtUnit(k)
      modifies this`pos, this`size
      ensures nal == units[k]
      ensures PastUnit(k)
    {
      TakeAt(stream, k);
      var nalu := new H264Nalu();
      var taken := nalu.GetAnnexbNalu(stream[pos..]);
      size := size - taken;
      pos := pos + taken;
      nal := nalu.buffer;
    }

    /** At the end of the file, starts again from its beginning. */
    method GoRound(ghost i: nat)
      requires IsFile(stream) && units == TakeAll(stream) && units != []
      requires PastUnit(Round(i, |units|))
      modifies this`pos, this`size
      ensures AtUnit(Round(i + 1, |units|))
    {
      TakeAt(stream, Round(i, |units|));
      NextRound(i, |units|);
      if size == 0 {
        pos := 0;
        size := |stream|;
      }
    }
  }

  lemma {:induction false} CyclicFits(fed: seq<Nalu>, us: seq<seq<byte>>, mtu: nat)
    requires us != [] && Cyclic(fed, us)
    ensures AllFitting(us, mtu) ==> AllFit(fed, mtu)
    decreases |fed|
  {
    if fed != [] {
      CyclicFits(fed[..|fed| - 1], us, mtu);
      assert us[Round(|fed| - 1, |us|)] in us;
    }
  }

  function BufferOf(x: Option<Nalu>): Option<seq<byte>> {
    match x
    case None => None
    case Some(n) => Some(n.buffer)
  }

  function Fed(nals: seq<seq<byte>>): (r: seq<Nalu>)
    ensures |r| == |nals|
  {
    seq(|nals|, i requires 0 <= i < |nals| => AsNalu(nals[i]))
  }

  /** The latest parameter sets among these units. */
  ghost predicate SetsAre(nals: seq<seq<byte>>, sps: Option<seq<byte>>, pps: Option<seq<byte>>) {
    sps == BufferOf(Latest(Fed(nals), NAL_SPS)) && pps == BufferOf(Latest(Fed(nals), NAL_PPS))
  }

  /** One of the parameter sets is not among these units. */
  predicate Lacking(nals: seq<seq<byte>>) {
    Latest(Fed(nals), NAL_SPS).None? || Latest(Fed(nals), NAL_PPS).None?
  }

  lemma {:induction false} OneMoreSeen(nals: seq<seq<byte>>, nal: seq<byte>)
    ensures var x, before, after := AsNalu(nal), Fed(nals), Fed(nals + [nal]);
      && Latest(after, NAL_SPS) == (if x.NalType() == NAL_SPS then Some(x) else Latest(before, NAL_SPS))
      && Latest(after, NAL_PPS) == (if x.NalType() == NAL_PPS then Some(x) else Latest(before, NAL_PPS))
    ensures (nals + [nal])[..|nals|] == nals
  {
    assert Fed(nals + [nal]) == Fed(nals) + [AsNalu(nal)];
    assert Fed(nals + [nal])[..|nals|] == Fed(nals);
  }

  lemma {:induction false} CyclicOneMore(fed: seq<Nalu>, x: Nalu, us: seq<seq<byte>>)
    requires us != [] && Cyclic(fed, us)
    requires x.buffer == us[Round(|fed|, |us|)] && x.pts == Pictures(fed) * FRAME_TICKS % U32
    ensures Cyclic(fed + [x], us)
    ensures Pictures(fed + [x]) == Pictures(fed) + if IsPicture(x.buffer) then 1 else 0
  {
    assert (fed + [x])[..|fed|] == fed;
  }

  lemma {:induction false} NextRound(i: nat, n: nat)
    requires n > 0
    ensures Round(i + 1, n) == if Round(i, n) + 1 == n then 0 else Round(i, n) + 1
    decreases i
  {
    if i >= n {
      NextRound(i - n, n);
    }
  }
}
