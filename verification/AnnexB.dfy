/**
 Splitting a byte stream (ITU-T H.264, Annex B) into NAL units, one at a time.
 */
module AnnexB {
  import opened Bytes
  import opened Options

  /** A byte of the stream; past its end there is the terminator of a C string. */
  function At(s: seq<byte>, i: nat): byte {
    if i < |s| then s[i] else 0
  }

  predicate ShortCode(s: seq<byte>, i: nat) {
    At(s, i) == 0 && At(s, i + 1) == 0 && At(s, i + 2) == 1
  }

  predicate LongCode(s: seq<byte>, i: nat) {
    At(s, i) == 0 && At(s, i + 1) == 0 && At(s, i + 2) == 0 && At(s, i + 3) == 1
  }

  predicate CodeAt(s: seq<byte>, i: nat) {
    ShortCode(s, i) || LongCode(s, i)
  }

  /** Where the unit whose bytes start at `i` is taken to end. */
  function EndFrom(s: seq<byte>, i: nat): (end: nat)
    requires i <= |s|
    ensures i <= end <= |s|
    decreases |s| - i
  {
    if CodeAt(s, i) then i
    else if i + 4 >= |s| then |s|
    else EndFrom(s, i + 1)
  }

  /** The bytes consumed and the unit found; nothing when there is no start code in front. */
  datatype Taken = Taken(consumed: nat, nal: seq<byte>) | NoCode

  function TakeNal(s: seq<byte>): (r: Taken)
    ensures r.Taken? ==> 3 <= r.consumed <= |s|
  {
    if !CodeAt(s, 0) then NoCode
    else
      var start := if ShortCode(s, 0) then 3 else 4;
      var end := EndFrom(s, start);
      Taken(end, s[start..end])
  }

  /** A start code there ends a unit: behind its first byte only if a byte follows the code. */
  predicate Ends(s: seq<byte>, start: nat, j: nat) {
    && start <= j && (j == start || j + 4 <= |s|)
    && j < |s| && ([0, 0, 1] <= s[j..] || [0, 0, 0, 1] <= s[j..])
  }

  class H264Nalu {
    var len: nat
    var buffer: seq<byte>
    var forbiddenBit: byte
    var nalReferenceIdc: byte
    var nalUnitType: byte

    constructor ()
    {
      len, buffer, forbiddenBit, nalReferenceIdc, nalUnitType := 0, [], 0, 0, 0;
    }

    method SetNal(nal: seq<byte>)
      modifies this
      ensures buffer == nal && len == |nal|
      ensures var b := if nal == [] then 0 else nal[0];
              forbiddenBit == b / 128 * 128 && nalReferenceIdc == b / 32 % 4 * 32 && nalUnitType == b % 32
    {
      len, buffer := |nal|, nal;
      var b: byte := if nal == [] then 0 else nal[0];
      forbiddenBit, nalReferenceIdc, nalUnitType := b / 128 * 128, b / 32 % 4 * 32, b % 32;
    }

    /** Takes the first unit of the stream; returns how many bytes it took, or 0. */
    method GetAnnexbNalu(s: seq<byte>) returns (consumed: nat)
      modifies this
      ensures match TakeNal(s)
              case NoCode => consumed == 0 && unchanged(this)
              case Taken(n, nal) => consumed == n && buffer == nal && len == |nal|
                                    && (var b := if nal == [] then 0 else nal[0];
                                        && forbiddenBit == b / 128 * 128 && nalReferenceIdc == b / 32 % 4 * 32
                                        && nalUnitType == b % 32)
    {
      var i := 0;
      while !ShortCode(s, 0) && !LongCode(s, 0)
        invariant i == 0 || !CodeAt(s, 0)
        decreases |s| - i
      {
        i := i + 1;
        if i + 4 > |s| {
          return 0;
        }
      }
      if !ShortCode(s, 0) {
        i := i + 1;
      }
      // The source tests the code once more here; the loop above only ends when it is there.
      assert ShortCode(s, i);
      i := i + 3;
      var start := i;
      while !LongCode(s, i) && !ShortCode(s, i)
        invariant start <= i <= |s|
        invariant EndFrom(s, i) == EndFrom(s, start)
        decreases |s| - i
      {
        i := i + 1;
        if i + 3 >= |s| {
          SetNal(s[start..]);
          return |s|;
        }
      }
      SetNal(s[start..i]);
      return i;
    }
  }

  // ---- Where a unit ends

  lemma {:induction false} CodeIsThere(s: seq<byte>, j: nat)
    ensures CodeAt(s, j) <==> j < |s| && ([0, 0, 1] <= s[j..] || [0, 0, 0, 1] <= s[j..])
  {
    if j < |s| {
      var t := s[j..];
      assert |t| >= 3 ==> t[0] == At(s, j) && t[1] == At(s, j + 1) && t[2] == At(s, j + 2);
      assert |t| >= 4 ==> t[3] == At(s, j + 3);
      assert |t| >= 3 && t[0] == 0 && t[1] == 0 && t[2] == 1 ==> t[..3] == [0, 0, 1];
      assert |t| >= 4 && t[0] == 0 && t[1] == 0 && t[2] == 0 && t[3] == 1 ==> t[..4] == [0, 0, 0, 1];
    }
  }

  lemma {:induction false} EndIsFirst(s: seq<byte>, i: nat)
    requires i <= |s|
    ensures var e := EndFrom(s, i);
      && (forall j :: i <= j < e && (j == i || j + 4 <= |s|) ==> !CodeAt(s, j))
      && (e < |s| ==> CodeAt(s, e) && (e == i || e + 4 <= |s|))
    decreases |s| - i
  {
    if !CodeAt(s, i) && i + 4 < |s| {
      EndIsFirst(s, i + 1);
    }
  }

  /**
   A unit is taken if and only if the stream begins with a start code. It is what
   lies between that code and the first one behind it that ends a unit, or all the
   rest; a code at the very end of the stream does not end one.
   */
  lemma {:induction false} TakesExactly(s: seq<byte>)
    ensures TakeNal(s).Taken? <==> [0, 0, 1] <= s || [0, 0, 0, 1] <= s
    ensures TakeNal(s).Taken? ==>
      var start, e := if [0, 0, 1] <= s then 3 else 4, TakeNal(s).consumed;
      && start <= e <= |s| && TakeNal(s).nal == s[start..e]
      && (forall j :: start <= j < e ==> !Ends(s, start, j))
      && (e < |s| ==> Ends(s, start, e))
  {
    CodeIsThere(s, 0);
    assert s != [] ==> s[0..] == s;
    if CodeAt(s, 0) {
      var start := if ShortCode(s, 0) then 3 else 4;
      EndIsFirst(s, start);
      forall j: nat
        ensures CodeAt(s, j) <==> j < |s| && ([0, 0, 1] <= s[j..] || [0, 0, 0, 1] <= s[j..])
      {
        CodeIsThere(s, j);
      }
    }
  }

  // ---- Splitting undoes joining

  /** A unit with its start code: 00 00 00 01 when long, else 00 00 01. */
  datatype CodedNal = CodedNal(long: bool, nal: seq<byte>) {
    function Bytes(): seq<byte> {
      Code(long) + nal
    }
  }

  function Code(long: bool): seq<byte> {
    if long then [0, 0, 0, 1] else [0, 0, 1]
  }

  function Join(us: seq<CodedNal>): seq<byte> {
    if us == [] then [] else us[0].Bytes() + Join(us[1..])
  }

  function Nals(us: seq<CodedNal>): (r: seq<seq<byte>>)
    ensures |r| == |us|
  {
    seq(|us|, i requires 0 <= i < |us| => us[i].nal)
  }

  /** The units taken from a stream one after another, as long as there is a start code. */
  function TakeAll(s: seq<byte>): seq<seq<byte>>
    decreases |s|
  {
    if s == [] then []
    else
      match TakeNal(s)
      case NoCode => []
      case Taken(n, nal) => [nal] + TakeAll(s[n..])
  }

  /** Taking units one after another comes to bytes from which nothing is taken. */
  predicate Stuck(s: seq<byte>)
    decreases |s|
  {
    s != [] &&
    match TakeNal(s)
    case NoCode => true
    case Taken(n, _) => Stuck(s[n..])
  }

  /** A stream that is empty or has a start code in front. */
  predicate Coded(s: seq<byte>) {
    s == [] || CodeAt(s, 0)
  }

  lemma {:induction false} EndIsCode(s: seq<byte>, i: nat)
    requires i <= |s|
    ensures EndFrom(s, i) == |s| || CodeAt(s, EndFrom(s, i))
    decreases |s| - i
  {
    if !CodeAt(s, i) && i + 4 < |s| {
      EndIsCode(s, i + 1);
    }
  }

  /** A unit ends in front of a start code or at the end of the stream. */
  lemma {:induction false} RestIsCoded(s: seq<byte>)
    requires TakeNal(s).Taken?
    ensures Coded(s[TakeNal(s).consumed..])
  {
    var start := if ShortCode(s, 0) then 3 else 4;
    var end := EndFrom(s, start);
    EndIsCode(s, start);
    assert forall k: nat :: At(s[end..], k) == At(s, end + k);
  }

  /** Only the front of a stream can be wrong: behind every unit taken there is another, or the end. */
  lemma {:induction false} StuckExactly(s: seq<byte>)
    ensures Stuck(s) <==> s != [] && !CodeAt(s, 0)
    decreases |s|
  {
    if s != [] && CodeAt(s, 0) {
      RestIsCoded(s);
      StuckExactly(s[TakeNal(s).consumed..]);
    }
  }

  /** For example a file of one byte. */
  lemma {:induction false} OneByteIsStuck()
    ensures Stuck([1]) && TakeAll([1]) == []
  {
    assert At([1], 0) == 1;
  }

  /** All units of a stream, if there is nothing else in it. */
  function SplitAll(s: seq<byte>): Option<seq<seq<byte>>> {
    if Coded(s) then Some(TakeAll(s)) else None
  }

  /** What the standard guarantees of the bytes inside a unit. */
  predicate Clean(nal: seq<byte>) {
    nal != [] && forall i: nat :: i + 3 <= |nal| ==> !ShortCode(nal, i)
  }

  predicate AllClean(us: seq<CodedNal>) {
    forall u :: u in us ==> Clean(u.nal)
  }

  /** A zero at the end of a unit can be told from the start code after it. */
  predicate Apart(u: CodedNal, v: CodedNal) {
    v.long || u.nal == [] || u.nal[|u.nal| - 1] != 0
  }

  predicate Separated(us: seq<CodedNal>) {
    |us| < 2 || (Apart(us[0], us[1]) && Separated(us[1..]))
  }

  lemma {:induction false} EndIsFirstCode(s: seq<byte>, i: nat, end: nat)
    requires i <= end <= |s|
    requires forall j :: i <= j < end ==> !CodeAt(s, j)
    requires end == |s| || (CodeAt(s, end) && end + 3 < |s|)
    ensures EndFrom(s, i) == end
    decreases end - i
  {
    if i < end && i + 4 < |s| {
      EndIsFirstCode(s, i + 1, end);
    }
  }

  lemma {:induction false} EndNotAfterCode(s: seq<byte>, i: nat, code: nat)
    requires i <= code && CodeAt(s, code) && code + 3 < |s|
    ensures EndFrom(s, i) <= code
    decreases code - i
  {
    if i < code {
      EndNotAfterCode(s, i + 1, code);
    }
  }

  /** A stream that is empty, or starts with a start code and goes on after it. */
  predicate StartsCoded(rest: seq<byte>, long: bool) {
    rest == [] ||
    (|rest| >= 4 && rest[0] == 0 && rest[1] == 0 &&
     if long then rest[2] == 0 && rest[3] == 1 else rest[2] == 1)
  }

  lemma {:induction false} JoinStart(us: seq<CodedNal>)
    requires AllClean(us)
    ensures us == [] ==> Join(us) == []
    ensures us != [] ==> Join(us) != [] && StartsCoded(Join(us), us[0].long)
  {
    if us != [] {
      assert us[0] in us && us[0].nal != [];
    }
  }

  /** No start code is seen from inside a unit, unless its last byte can be taken for part of one. */
  lemma {:induction false} NoCodeInside(code: seq<byte>, nal: seq<byte>, rest: seq<byte>, long: bool, i: nat)
    requires Clean(nal) && StartsCoded(rest, long) && |code| <= i < |code| + |nal|
    requires rest == [] || long || nal[|nal| - 1] != 0
    ensures !CodeAt(code + nal + rest, i)
  {
    var s, end, j := code + nal + rest, |code| + |nal|, i - |code|;
    assert s[end - 1] == nal[|nal| - 1];
    if i + 3 <= end {
      assert !ShortCode(nal, j);
      assert s[i] == nal[j] && s[i + 1] == nal[j + 1] && s[i + 2] == nal[j + 2];
      if i + 4 <= end {
        assert s[i + 3] == nal[j + 3];
        assert !ShortCode(nal, j + 1);
      } else {
        assert At(s, i + 3) == At(rest, 0);
      }
    } else {
      assert At(s, end) == At(rest, 0) && At(s, end + 1) == At(rest, 1) && At(s, end + 2) == At(rest, 2);
    }
  }

  lemma {:induction false} EndOfUnit(code: seq<byte>, nal: seq<byte>, rest: seq<byte>, long: bool)
    requires Clean(nal) && StartsCoded(rest, long)
    requires rest == [] || long || nal[|nal| - 1] != 0
    ensures EndFrom(code + nal + rest, |code|) == |code| + |nal|
  {
    var s, end := code + nal + rest, |code| + |nal|;
    forall i | |code| <= i < end
      ensures !CodeAt(s, i)
    {
      NoCodeInside(code, nal, rest, long, i);
    }
    if rest != [] {
      assert s[end] == rest[0] && s[end + 1] == rest[1] && s[end + 2] == rest[2] && s[end + 3] == rest[3];
    }
    EndIsFirstCode(s, |code|, end);
  }

  lemma {:induction false} TakeUnit(long: bool, nal: seq<byte>, rest: seq<byte>)
    ensures TakeNal(Code(long) + nal + rest) ==
            var end := EndFrom(Code(long) + nal + rest, |Code(long)|);
            Taken(end, (Code(long) + nal + rest)[|Code(long)|..end])
  {
    var s := Code(long) + nal + rest;
    assert s[0] == 0 && s[1] == 0;
    assert s[2] == Code(long)[2];
    assert long ==> s[3] == 1;
  }

  /** Taking the first unit of joined units, where it cannot be mistaken. */
  lemma {:induction false} TakeFirst(us: seq<CodedNal>)
    requires us != [] && AllClean(us) && (|us| > 1 ==> Apart(us[0], us[1]))
    ensures var n := |us[0].Bytes()|;
            n >= 4 && TakeNal(Join(us)) == Taken(n, us[0].nal) && Join(us)[n..] == Join(us[1..])
  {
    var code, nal, rest := Code(us[0].long), us[0].nal, Join(us[1..]);
    assert us[0] in us;
    JoinStart(us[1..]);
    TakeUnit(us[0].long, nal, rest);
    EndOfUnit(code, nal, rest, |us| > 1 && us[1].long);
    assert Join(us) == code + nal + rest;
    assert (code + nal + rest)[|code|..|code| + |nal|] == nal;
  }

  /** A zero before a short start code is lost to the unit it ends. */
  lemma {:induction false} TakeFirstShort(us: seq<CodedNal>)
    requires |us| > 1 && AllClean(us) && !Apart(us[0], us[1])
    ensures TakeNal(Join(us)).Taken? && |TakeNal(Join(us)).nal| < |us[0].nal|
  {
    var code, nal, rest := Code(us[0].long), us[0].nal, Join(us[1..]);
    assert us[0] in us;
    JoinStart(us[1..]);
    TakeUnit(us[0].long, nal, rest);
    var s, end := code + nal + rest, |code| + |nal|;
    assert Join(us) == s;
    assert s[end - 1] == nal[|nal| - 1] && s[end] == rest[0] && s[end + 1] == rest[1] && s[end + 2] == rest[2];
    EndNotAfterCode(s, |code|, end - 1);
  }

  /**
   Splitting gives back the units that were joined, and consumes every byte,
   exactly when no unit that ends in a zero is followed by a short start code.
   */
  lemma {:induction false} SplitUndoesJoin(us: seq<CodedNal>)
    requires AllClean(us)
    ensures SplitAll(Join(us)) == Some(Nals(us)) <==> Separated(us)
    decreases |us|
  {
    if us == [] {
      assert Nals(us) == [];
    } else if |us| > 1 && !Apart(us[0], us[1]) {
      assert !Separated(us);
      SplitFirstShort(us);
    } else {
      SplitUndoesJoin(us[1..]);
      SplitFirst(us);
      assert Nals(us) == [us[0].nal] + Nals(us[1..]);
      FirstSplit(us[0].nal, SplitAll(Join(us[1..])), Nals(us[1..]));
    }
  }

  lemma {:induction false} SplitFirst(us: seq<CodedNal>)
    requires us != [] && AllClean(us) && (|us| > 1 ==> Apart(us[0], us[1]))
    ensures SplitAll(Join(us)) ==
            match SplitAll(Join(us[1..]))
            case None => None
            case Some(rest) => Some([us[0].nal] + rest)
  {
    JoinStart(us);
    JoinStart(us[1..]);
    TakeFirst(us);
  }

  /** A stream whose units are cut wrong: the zero at the end of the first is lost. */
  lemma {:induction false} SplitLosesZero()
    ensures var us := [CodedNal(false, [1, 0]), CodedNal(false, [1])];
      && AllClean(us) && !Separated(us) && SplitAll(Join(us)) != Some(Nals(us))
  {
    var us := [CodedNal(false, [1, 0]), CodedNal(false, [1])];
    assert us[1..] == [us[1]] && us[0].nal[1] == 0 && us[1].nal[0] == 1;
    SplitUndoesJoin(us);
  }

  lemma {:induction false} SplitFirstShort(us: seq<CodedNal>)
    requires |us| > 1 && AllClean(us) && !Apart(us[0], us[1])
    ensures SplitAll(Join(us)) != Some(Nals(us))
  {
    JoinStart(us);
    TakeFirstShort(us);
    assert Nals(us)[0] == us[0].nal;
    if SplitAll(Join(us)).Some? {
      assert SplitAll(Join(us)).value[0] == TakeNal(Join(us)).nal;
    }
  }

  lemma {:induction false} FirstSplit(nal: seq<byte>, rest: Option<seq<seq<byte>>>, nals: seq<seq<byte>>)
    ensures rest.Some? ==> ([nal] + rest.value == [nal] + nals <==> rest.value == nals)
  {
    if rest.Some? {
      assert ([nal] + rest.value)[1..] == rest.value && ([nal] + nals)[1..] == nals;
    }
  }
}
