/**
 From a bracket, cpplint's matchers find the shortest balanced stretch of the
 text, whatever angle brackets and semicolons it holds and however it is cut
 into lines; so each undoes the other.
 */
module ScannerTheorems {
  import opened Brackets
  import opened ExpressionScanner
  import opened Sequences

  // ---- Dropping the angle brackets from a stack

  predicate IsAngle(c: char) {
    c == '<' || c == '>'
  }

  /** The plain stack behind a scanner's stack: no angle brackets, each bracket as an opener. */
  function Plain(stack: seq<char>): seq<char> {
    if stack == [] then []
    else
      var c := stack[|stack| - 1];
      Plain(stack[..|stack| - 1]) +
      (if IsAngle(c) then [] else [if IsCloser(c) then Flip(c) else c])
  }

  /** A stack with a bracket at the bottom, of one direction, and that direction's angles. */
  predicate Rooted(stack: seq<char>, forward: bool) {
    && stack != []
    && !IsAngle(stack[0])
    && forall i :: 0 <= i < |stack| ==>
         if forward then IsOpener(stack[i]) || stack[i] == '<' else IsCloser(stack[i]) || stack[i] == '>'
  }

  lemma {:induction false} PopKeepsPlain(stack: seq<char>, forward: bool)
    requires Rooted(stack, forward)
    ensures var st := PopAngles(stack, if forward then '<' else '>');
            Rooted(st, forward) && Plain(st) == Plain(stack) && !IsAngle(st[|st| - 1])
    decreases |stack|
  {
    if IsAngle(stack[|stack| - 1]) {
      PopKeepsPlain(stack[..|stack| - 1], forward);
    }
  }

  lemma {:induction false} PlainRooted(stack: seq<char>, forward: bool)
    requires Rooted(stack, forward)
    ensures Plain(stack) != []
    ensures !IsAngle(stack[|stack| - 1]) && |stack| > 1 ==> |Plain(stack)| > 1
    decreases |stack|
  {
    if |stack| > 1 {
      assert Rooted(stack[..|stack| - 1], forward);
      PlainRooted(stack[..|stack| - 1], forward);
    }
  }

  lemma {:induction false} PlainPush(stack: seq<char>, c: char)
    ensures Plain(stack + [c]) ==
            Plain(stack) + (if IsAngle(c) then [] else [if IsCloser(c) then Flip(c) else c])
  {
    assert (stack + [c])[..|stack|] == stack;
  }

  // ---- One line

  /** A forward scan from `i` and a plain scan of the text from `i` say the same. */
  ghost predicate AgreesForward(i: nat, r: LineScan, o: Outcome) {
    match r
    case Found(p) => o.Closed? && p == i + o.length
    case Abandoned => o.Stuck?
    case Unclosed(st) => Rooted(st, true) && o == Outcome.Open(Plain(st))
  }

  lemma {:induction false} ScanOne(c: char, stack: seq<char>)
    ensures Scan([c], stack) ==
            if IsOpener(c) then Outcome.Open(stack + [c])
            else if !IsCloser(c) then Outcome.Open(stack)
            else if stack == [] || Flip(stack[|stack| - 1]) != c then Stuck
            else if |stack| == 1 then Closed(1)
            else Outcome.Open(stack[..|stack| - 1])
  {
    assert [c] + "" == [c];
    ScanCons(c, "", stack);
  }

  /** Meeting the partner `c` of a bracket on the stack, in terms of the plain stack. */
  lemma {:induction false} CloserStep(stack: seq<char>, forward: bool, c: char)
    requires Rooted(stack, forward)
    requires if forward then IsCloser(c) else IsOpener(c)
    ensures var st, plain := PopAngles(stack, if forward then '<' else '>'), Plain(stack);
            && st != [] && plain != []
            && (Flip(st[|st| - 1]) == c <==> Flip(plain[|plain| - 1]) == if forward then c else Flip(c))
            && (|st| == 1 <==> |plain| == 1)
            && plain[..|plain| - 1] == Plain(Init(st))
            && (|st| > 1 ==> Rooted(Init(st), forward))
  {
    PopKeepsPlain(stack, forward);
    var st := PopAngles(stack, if forward then '<' else '>');
    PlainRooted(st, forward);
    assert Plain(st) == Plain(Init(st)) + [if IsCloser(st[|st| - 1]) then Flip(st[|st| - 1]) else st[|st| - 1]];
    if |st| == 1 {
      assert Init(st) == [];
    }
  }

  lemma {:induction false} RootedPush(stack: seq<char>)
    requires Rooted(stack, true)
    ensures Rooted(stack + ['<'], true) && Plain(stack + ['<']) == Plain(stack)
  {
    PlainPush(stack, '<');
  }

  lemma {:induction false} RootedInit(stack: seq<char>)
    requires Rooted(stack, true) && IsAngle(stack[|stack| - 1])
    ensures Rooted(Init(stack), true) && Plain(Init(stack)) == Plain(stack)
  {
  }

  /** An angle bracket leaves the plain stack alone. */
  lemma {:induction false} AngleStep(line: string, i: nat, stack: seq<char>)
    requires i < |line| && IsAngle(line[i]) && Rooted(stack, true)
    ensures var r := ForwardStep(line, i, stack);
            r.Unclosed? && Rooted(r.stack, true) && Plain(r.stack) == Plain(stack)
  {
    var st := ForwardStep(line, i, stack).stack;
    if st == stack + ['<'] {
      RootedPush(stack);
    } else if TopIs(stack, '<') {
      RootedInit(stack);
    }
  }

  lemma {:induction false} StepForward(line: string, i: nat, stack: seq<char>)
    requires i < |line| && Rooted(stack, true)
    ensures AgreesForward(i, ForwardStep(line, i, stack), Scan([line[i]], Plain(stack)))
  {
    var c, plain := line[i], Plain(stack);
    ScanOne(c, plain);
    if IsCloser(c) {
      CloserStep(stack, true, c);
    } else if IsOpener(c) {
      PlainPush(stack, c);
    } else if c == ';' {
      PopKeepsPlain(stack, true);
    } else if c == '<' || c == '>' {
      AngleStep(line, i, stack);
    }
  }

  lemma {:induction false} LineForward(line: string, i: nat, stack: seq<char>)
    requires i <= |line| && Rooted(stack, true)
    ensures AgreesForward(i, Forward(line, i, stack), Scan(line[i..], Plain(stack)))
    decreases |line| - i
  {
    if i < |line| {
      StepForward(line, i, stack);
      assert line[i..] == [line[i]] + line[i + 1..];
      ScanConcat([line[i]], line[i + 1..], Plain(stack));
      if ForwardStep(line, i, stack).Unclosed? {
        LineForward(line, i + 1, ForwardStep(line, i, stack).stack);
      }
    }
  }

  /** A backward scan of `n` characters and a plain scan of their mirror image say the same. */
  ghost predicate AgreesBack(n: nat, r: LineScan, o: Outcome) {
    match r
    case Found(p) => o.Closed? && p == n - o.length
    case Abandoned => o.Stuck?
    case Unclosed(st) => Rooted(st, false) && o == Outcome.Open(Plain(st))
  }

  lemma {:induction false} MirrorLast(s: string)
    requires s != ""
    ensures MirrorText(s) == [Flip(s[|s| - 1])] + MirrorText(s[..|s| - 1])
  {
  }

  lemma {:induction false} MirrorSnoc(s: string, c: char)
    ensures MirrorText(s + [c]) == [Flip(c)] + MirrorText(s)
  {
    MirrorConcat(s, [c]);
    assert MirrorText([c]) == [Flip(c)];
  }

  lemma {:induction false} StepBack(line: string, n: nat, stack: seq<char>)
    requires n < |line| && Rooted(stack, false)
    ensures AgreesBack(n + 1, BackStep(line, n, stack), Scan([Flip(line[n])], Plain(stack)))
  {
    var c, plain := line[n], Plain(stack);
    ScanOne(Flip(c), plain);
    if IsOpener(c) {
      CloserStep(stack, false, c);
    } else if IsCloser(c) {
      PlainPush(stack, c);
    } else if c == ';' {
      PopKeepsPlain(stack, false);
    } else if Skips(line, n) {
    } else if c == '>' {
      PlainPush(stack, c);
      assert BackStep(line, n, stack) == Unclosed(stack + [c]);
    } else if c == '<' && TopIs(stack, '>') {
      assert Plain(Init(stack)) == plain;
      assert BackStep(line, n, stack) == Unclosed(Init(stack));
    } else {
      assert BackStep(line, n, stack) == Unclosed(stack);
    }
  }

  lemma {:induction false} OperatorEnd(s: string)
    requires EndsWithOperator(s)
    ensures s != "" && (IsSpace(s[|s| - 1]) || s[|s| - 1] == 'r')
  {
    if s != "" && !IsSpace(s[|s| - 1]) {
      assert TrimRight(s) == s;
      assert s[|s| - 8..][7] == 'r';
    }
  }

  /** The regular expressions only ever make the scanner step over a space, '-', '<' or 'r'. */
  lemma {:induction false} SkippedIsNoBracket(line: string, i: nat)
    requires i < |line| && Skips(line, i)
    ensures i > 0 && !IsOpener(line[i - 1]) && !IsCloser(line[i - 1])
  {
    if EndsWithOperator(line[..i]) {
      OperatorEnd(line[..i]);
    }
  }

  lemma {:induction false} LineBack(line: string, n: nat, stack: seq<char>)
    requires n <= |line| && Rooted(stack, false)
    ensures AgreesBack(n, Back(line, n, stack), Scan(MirrorText(line[..n]), Plain(stack)))
    decreases n
  {
    if n > 0 {
      var before := line[..n - 1];
      MirrorLast(line[..n]);
      assert line[..n][..n - 1] == before;
      StepBack(line, n - 1, stack);
      ScanConcat([Flip(line[n - 1])], MirrorText(before), Plain(stack));
      var r := BackStep(line, n - 1, stack);
      if r.Unclosed? {
        if Skips(line, n - 1) {
          SkippedIsNoBracket(line, n - 1);
          MirrorLast(before);
          assert before[..n - 2] == line[..n - 2];
          var skipped := [Flip(line[n - 2])];
          assert skipped[1..] == "" && Scan(skipped, Plain(r.stack)) == Outcome.Open(Plain(r.stack));
          ScanConcat(skipped, MirrorText(line[..n - 2]), Plain(r.stack));
          LineBack(line, n - 2, r.stack);
        } else {
          LineBack(line, n - 1, r.stack);
        }
      }
    }
  }

  // ---- Many lines. The whole text is their concatenation; line ends carry no character.

  /** The offset of position `pos` of line `n` in the whole text. */
  function Offset(lines: seq<string>, n: nat, pos: nat): nat
    requires n <= |lines|
  {
    |Flatten(lines[..n])| + pos
  }

  /** The text from `a` to `b` is a non-empty balanced word. */
  ghost predicate BalancedSpan(lines: seq<string>, a: nat, b: nat) {
    a < b <= |Flatten(lines)| && Balanced(Flatten(lines)[a..b])
  }

  /** The whole text, cut at a position of a line. */
  lemma {:induction false} CutText(lines: seq<string>, n: nat, pos: nat)
    requires n < |lines| && pos <= |lines[n]|
    ensures var before, after := Flatten(lines[..n]) + lines[n][..pos], lines[n][pos..] + Flatten(lines[n + 1..]);
            Flatten(lines) == before + after && |before| == Offset(lines, n, pos)
  {
    assert lines == lines[..n] + lines[n..];
    FlattenConcat(lines[..n], lines[n..]);
    assert lines[n..][1..] == lines[n + 1..];
    assert lines[n] == lines[n][..pos] + lines[n][pos..];
  }

  lemma {:induction false} CharAt(lines: seq<string>, n: nat, pos: nat)
    requires n < |lines| && pos < |lines[n]|
    ensures Offset(lines, n, pos) < |Flatten(lines)| && Flatten(lines)[Offset(lines, n, pos)] == lines[n][pos]
  {
    CutText(lines, n, pos);
  }

  lemma {:induction false} NextLine(lines: seq<string>, n: nat)
    requires n < |lines|
    ensures Flatten(lines[..n + 1]) == Flatten(lines[..n]) + lines[n]
  {
    assert lines[..n + 1] == lines[..n] + [lines[n]];
    FlattenConcat(lines[..n], [lines[n]]);
    assert [lines[n]][1..] == [];
  }

  lemma {:induction false} OffsetsGrow(lines: seq<string>, n: nat, m: nat)
    requires n <= m <= |lines|
    ensures Offset(lines, n, 0) <= Offset(lines, m, 0)
    ensures n < m ==> Offset(lines, n, |lines[n]|) <= Offset(lines, m, 0)
    decreases m - n
  {
    if n < m {
      NextLine(lines, n);
      OffsetsGrow(lines, n + 1, m);
    }
  }

  /** Distinct character positions have distinct offsets. */
  lemma {:induction false} OffsetInjective(lines: seq<string>, n: nat, pos: nat, n': nat, pos': nat)
    requires n < |lines| && pos < |lines[n]| && n' < |lines| && pos' < |lines[n']|
    requires Offset(lines, n, pos) == Offset(lines, n', pos')
    ensures n == n' && pos == pos'
  {
    if n < n' {
      OffsetsGrow(lines, n, n');
    } else if n' < n {
      OffsetsGrow(lines, n', n);
    }
  }

  lemma {:induction false} LinesForward(lines: seq<string>, n: nat, i: nat, stack: seq<char>)
    requires n < |lines| && i <= |lines[n]| && Rooted(stack, true)
    ensures var o := Scan(lines[n][i..] + Flatten(lines[n + 1..]), Plain(stack));
            match CloseFrom(lines, n, Forward(lines[n], i, stack))
            case At(m, p) => o.Closed? && n <= m < |lines| && 0 < p <= |lines[m]|
                             && Offset(lines, m, p) == Offset(lines, n, i) + o.length
            case Nowhere => !o.Closed?
    decreases |lines| - n
  {
    var u, v := lines[n][i..], Flatten(lines[n + 1..]);
    LineForward(lines[n], i, stack);
    PlainRooted(stack, true);
    ScanConcat(u, v, Plain(stack));
    ScanKeepsStackNonEmpty(u, Plain(stack));
    var r := Forward(lines[n], i, stack);
    if r.Unclosed? && n + 1 < |lines| {
      LinesForward(lines, n + 1, 0, r.stack);
      NextLine(lines, n);
      assert lines[n + 1..][1..] == lines[n + 2..];
      assert lines[n + 1][0..] == lines[n + 1];
    }
  }

  lemma {:induction false} LinesBack(lines: seq<string>, n: nat, i: nat, stack: seq<char>)
    requires n < |lines| && i <= |lines[n]| && Rooted(stack, false)
    ensures var o := Scan(MirrorText(Flatten(lines[..n]) + lines[n][..i]), Plain(stack));
            match OpenFrom(lines, n, Back(lines[n], i, stack))
            case At(m, p) => o.Closed? && m <= n && p < |lines[m]|
                             && Offset(lines, m, p) == Offset(lines, n, i) - o.length
            case Nowhere => !o.Closed?
    decreases n
  {
    var u, v := lines[n][..i], Flatten(lines[..n]);
    LineBack(lines[n], i, stack);
    PlainRooted(stack, false);
    MirrorConcat(v, u);
    ScanConcat(MirrorText(u), MirrorText(v), Plain(stack));
    ScanKeepsStackNonEmpty(MirrorText(u), Plain(stack));
    var r := Back(lines[n], i, stack);
    if r.Unclosed? && n > 0 {
      var full := |lines[n - 1]|;
      LinesBack(lines, n - 1, full, r.stack);
      NextLine(lines, n - 1);
      assert lines[n - 1][..full] == lines[n - 1];
    }
  }

  /** The forward search from an opening bracket is a plain scan of the rest of the text. */
  lemma {:induction false} CloseIsScan(lines: seq<string>, n: nat, pos: nat)
    requires n < |lines| && pos < |lines[n]| && IsOpener(lines[n][pos])
    ensures var o := Scan(lines[n][pos..] + Flatten(lines[n + 1..]), []);
            match CloseSpot(lines, n, pos)
            case At(m, q) => o.Closed? && n <= m < |lines| && 0 < q <= |lines[m]|
                             && Offset(lines, m, q) == Offset(lines, n, pos) + o.length
            case Nowhere => !o.Closed?
  {
    var c := lines[n][pos];
    var rest := lines[n][pos + 1..] + Flatten(lines[n + 1..]);
    assert lines[n][pos..] + Flatten(lines[n + 1..]) == [c] + rest;
    ScanCons(c, rest, []);
    assert [] + [c] == [c];
    PlainOne(c);
    LinesForward(lines, n, pos + 1, [c]);
    CloseStartsWith(lines, n, pos);
  }

  lemma {:induction false} CloseStartsWith(lines: seq<string>, n: nat, pos: nat)
    requires n < |lines| && pos < |lines[n]| && IsOpener(lines[n][pos])
    ensures CloseSpot(lines, n, pos) == CloseFrom(lines, n, Forward(lines[n], pos + 1, [lines[n][pos]]))
  {
    assert [] + [lines[n][pos]] == [lines[n][pos]];
  }

  /** The backward search from a closing bracket is a plain scan of the mirror image. */
  lemma {:induction false} OpenIsScan(lines: seq<string>, n: nat, pos: nat)
    requires n < |lines| && pos < |lines[n]| && IsCloser(lines[n][pos])
    ensures var o := Scan(MirrorText(Flatten(lines[..n]) + lines[n][..pos + 1]), []);
            match OpenSpot(lines, n, pos)
            case At(m, p) => o.Closed? && m <= n && p < |lines[m]|
                             && Offset(lines, m, p) == Offset(lines, n, pos + 1) - o.length
            case Nowhere => !o.Closed?
  {
    var c, before := lines[n][pos], Flatten(lines[..n]) + lines[n][..pos];
    assert Flatten(lines[..n]) + lines[n][..pos + 1] == before + [c];
    MirrorSnoc(before, c);
    ScanCons(Flip(c), MirrorText(before), []);
    assert [] + [Flip(c)] == [Flip(c)];
    PlainOne(c);
    LinesBack(lines, n, pos, [c]);
    OpenStartsWith(lines, n, pos);
  }

  lemma {:induction false} PlainOne(c: char)
    requires IsOpener(c) || IsCloser(c)
    ensures Plain([c]) == [if IsCloser(c) then Flip(c) else c]
  {
    assert [c][..0] == [];
  }

  lemma {:induction false} OpenStartsWith(lines: seq<string>, n: nat, pos: nat)
    requires n < |lines| && pos < |lines[n]| && IsCloser(lines[n][pos])
    ensures OpenSpot(lines, n, pos) == OpenFrom(lines, n, Back(lines[n], pos, [lines[n][pos]]))
  {
    assert [] + [lines[n][pos]] == [lines[n][pos]];
  }

  // ---- The theorems

  /**
   From an opening bracket, CloseExpression finds a position exactly when some
   balanced stretch of the text starts there, and then the end of the shortest.
   */
  lemma {:induction false} CloseIsShortest(lines: seq<string>, n: nat, pos: nat)
    requires n < |lines| && pos < |lines[n]| && IsOpener(lines[n][pos])
    ensures var a := Offset(lines, n, pos);
            match CloseSpot(lines, n, pos)
            case At(m, q) =>
              && n <= m < |lines| && 0 < q <= |lines[m]| && lines[m][q - 1] == Flip(lines[n][pos])
              && BalancedSpan(lines, a, Offset(lines, m, q))
              && (forall b: nat :: BalancedSpan(lines, a, b) ==> Offset(lines, m, q) <= b)
            case Nowhere => forall b: nat :: !BalancedSpan(lines, a, b)
  {
    var a := Offset(lines, n, pos);
    forall b: nat | BalancedSpan(lines, a, b)
      ensures CloseSpot(lines, n, pos).At?
      ensures var At(m, q) := CloseSpot(lines, n, pos); m < |lines| && Offset(lines, m, q) <= b
    {
      SpanIsClosed(lines, n, pos, b);
    }
    if CloseSpot(lines, n, pos).At? {
      ClosedIsSpan(lines, n, pos);
    }
  }

  lemma {:induction false} SpanIsClosed(lines: seq<string>, n: nat, pos: nat, b: nat)
    requires n < |lines| && pos < |lines[n]| && IsOpener(lines[n][pos])
    requires BalancedSpan(lines, Offset(lines, n, pos), b)
    ensures CloseSpot(lines, n, pos).At?
    ensures var At(m, q) := CloseSpot(lines, n, pos); m < |lines| && Offset(lines, m, q) <= b
  {
    var a, s := Offset(lines, n, pos), lines[n][pos..] + Flatten(lines[n + 1..]);
    CutText(lines, n, pos);
    CloseIsScan(lines, n, pos);
    ScanFindsShortest(s);
    assert Flatten(lines)[a..b] == s[..b - a];
  }

  lemma {:induction false} ClosedIsSpan(lines: seq<string>, n: nat, pos: nat)
    requires n < |lines| && pos < |lines[n]| && IsOpener(lines[n][pos])
    requires CloseSpot(lines, n, pos).At?
    ensures var At(m, q) := CloseSpot(lines, n, pos);
            && n <= m < |lines| && 0 < q <= |lines[m]| && lines[m][q - 1] == Flip(lines[n][pos])
            && BalancedSpan(lines, Offset(lines, n, pos), Offset(lines, m, q))
  {
    var a, s := Offset(lines, n, pos), lines[n][pos..] + Flatten(lines[n + 1..]);
    var At(m, q) := CloseSpot(lines, n, pos);
    CutText(lines, n, pos);
    CloseIsScan(lines, n, pos);
    ScanClosesBalanced(s);
    CharAt(lines, m, q - 1);
    assert Flatten(lines)[a..Offset(lines, m, q)] == s[..Scan(s, []).length];
  }

  /**
   From a closing bracket, ReverseCloseExpression finds a position exactly when
   some balanced stretch of the text ends there, and then the start of the shortest.
   */
  lemma {:induction false} OpenIsShortest(lines: seq<string>, n: nat, pos: nat)
    requires n < |lines| && pos < |lines[n]| && IsCloser(lines[n][pos])
    ensures var b := Offset(lines, n, pos + 1);
            match OpenSpot(lines, n, pos)
            case At(m, p) =>
              && m <= n && p < |lines[m]| && lines[m][p] == Flip(lines[n][pos])
              && BalancedSpan(lines, Offset(lines, m, p), b)
              && (forall a: nat :: BalancedSpan(lines, a, b) ==> a <= Offset(lines, m, p))
            case Nowhere => forall a: nat :: !BalancedSpan(lines, a, b)
  {
    var b := Offset(lines, n, pos + 1);
    forall a: nat | BalancedSpan(lines, a, b)
      ensures OpenSpot(lines, n, pos).At?
      ensures var At(m, p) := OpenSpot(lines, n, pos); m <= n && a <= Offset(lines, m, p)
    {
      SpanIsFound(lines, n, pos, a);
    }
    if OpenSpot(lines, n, pos).At? {
      FoundIsSpan(lines, n, pos);
    }
  }

  lemma {:induction false} SpanIsFound(lines: seq<string>, n: nat, pos: nat, a: nat)
    requires n < |lines| && pos < |lines[n]| && IsCloser(lines[n][pos])
    requires BalancedSpan(lines, a, Offset(lines, n, pos + 1))
    ensures OpenSpot(lines, n, pos).At?
    ensures var At(m, p) := OpenSpot(lines, n, pos); m <= n && a <= Offset(lines, m, p)
  {
    var s := Flatten(lines[..n]) + lines[n][..pos + 1];
    CutText(lines, n, pos + 1);
    OpenIsScan(lines, n, pos);
    MirrorLast(s);
    MirrorSpan(Flatten(lines), s, a);
    ScanFindsShortest(MirrorText(s));
  }

  lemma {:induction false} FoundIsSpan(lines: seq<string>, n: nat, pos: nat)
    requires n < |lines| && pos < |lines[n]| && IsCloser(lines[n][pos])
    requires OpenSpot(lines, n, pos).At?
    ensures var At(m, p) := OpenSpot(lines, n, pos);
            && m <= n && p < |lines[m]| && lines[m][p] == Flip(lines[n][pos])
            && BalancedSpan(lines, Offset(lines, m, p), Offset(lines, n, pos + 1))
  {
    var whole, s := Flatten(lines), Flatten(lines[..n]) + lines[n][..pos + 1];
    var At(m, p) := OpenSpot(lines, n, pos);
    OpenIsScan(lines, n, pos);
    CutText(lines, n, pos + 1);
    CloserScan(s);
    CharAt(lines, m, p);
    assert s[Offset(lines, m, p)..] == whole[Offset(lines, m, p)..|s|];
  }

  /** A closing scan of the mirror image of `s` gives a balanced suffix of `s`. */
  lemma {:induction false} CloserScan(s: string)
    requires s != "" && IsCloser(s[|s| - 1]) && Scan(MirrorText(s), []).Closed?
    ensures var k := Scan(MirrorText(s), []).length;
            0 < k <= |s| && Balanced(s[|s| - k..]) && s[|s| - k] == Flip(s[|s| - 1])
  {
    var mirror := MirrorText(s);
    assert mirror[0] == Flip(s[|s| - 1]);
    ScanClosesBalanced(mirror);
    MirrorPrefix(s, Scan(mirror, []).length);
  }

  /** A balanced prefix of the mirror image is the mirror image of a balanced suffix. */
  lemma {:induction false} MirrorPrefix(s: string, k: nat)
    requires 0 < k <= |s| && Balanced(MirrorText(s)[..k])
    ensures Balanced(s[|s| - k..]) && MirrorText(s)[k - 1] == Flip(s[|s| - k])
  {
    MirrorSuffix(s, |s| - k);
    MirrorBalanced(s[|s| - k..]);
    assert MirrorText(s)[k - 1] == MirrorText(s)[..k][k - 1];
  }

  /** Stretches ending with the prefix `s` of the text are prefixes of its mirror image. */
  lemma {:induction false} MirrorSpan(whole: string, s: string, a: nat)
    requires a < |s| <= |whole| && s == whole[..|s|]
    ensures Balanced(whole[a..|s|]) <==> Balanced(MirrorText(s)[..|s| - a])
  {
    MirrorSuffix(s, a);
    MirrorBalanced(s[a..]);
    assert whole[a..|s|] == s[a..];
  }

  lemma {:induction false} MirrorSuffix(s: string, a: nat)
    requires a <= |s|
    ensures MirrorText(s)[..|s| - a] == MirrorText(s[a..])
    ensures a < |s| ==> MirrorText(s[a..])[|s| - a - 1] == Flip(s[a])
  {
  }

  lemma {:induction false} BalancedSuffix(u: string, v: string)
    requires Balanced(u + v) && Balanced(u)
    ensures Balanced(v)
  {
    MirrorBalanced(u + v);
    MirrorBalanced(u);
    MirrorBalanced(v);
    MirrorConcat(u, v);
    BalancedPrefix(MirrorText(v), MirrorText(u));
  }

  lemma {:induction false} SpanPrefix(lines: seq<string>, a: nat, m: nat, b: nat)
    requires BalancedSpan(lines, a, b) && BalancedSpan(lines, m, b) && a < m
    ensures BalancedSpan(lines, a, m)
  {
    var whole := Flatten(lines);
    assert whole[a..b] == whole[a..m] + whole[m..b];
    BalancedPrefix(whole[a..m], whole[m..b]);
  }

  lemma {:induction false} SpanSuffix(lines: seq<string>, a: nat, m: nat, b: nat)
    requires BalancedSpan(lines, a, b) && BalancedSpan(lines, a, m) && m < b
    ensures BalancedSpan(lines, m, b)
  {
    var whole := Flatten(lines);
    assert whole[a..b] == whole[a..m] + whole[m..b];
    BalancedSuffix(whole[a..m], whole[m..b]);
  }

  /** Searching back from where the forward search ended gives the bracket it started from. */
  lemma {:induction false} OpenUndoesClose(lines: seq<string>, n: nat, pos: nat)
    requires n < |lines| && pos < |lines[n]| && IsOpener(lines[n][pos])
    requires CloseSpot(lines, n, pos).At?
    ensures var At(m, q) := CloseSpot(lines, n, pos);
            m < |lines| && 0 < q <= |lines[m]| && OpenSpot(lines, m, q - 1) == At(n, pos)
  {
    var At(m, q) := CloseSpot(lines, n, pos);
    CloseIsShortest(lines, n, pos);
    OpenIsShortest(lines, m, q - 1);
    var a, b := Offset(lines, n, pos), Offset(lines, m, q);
    var At(n', pos') := OpenSpot(lines, m, q - 1);
    var a' := Offset(lines, n', pos');
    if a < a' {
      SpanPrefix(lines, a, a', b);
    }
    OffsetInjective(lines, n, pos, n', pos');
  }

  /** Searching forward from where the backward search ended gives the bracket it started from. */
  lemma {:induction false} CloseUndoesOpen(lines: seq<string>, n: nat, pos: nat)
    requires n < |lines| && pos < |lines[n]| && IsCloser(lines[n][pos])
    requires OpenSpot(lines, n, pos).At?
    ensures var At(m, p) := OpenSpot(lines, n, pos);
            m < |lines| && p < |lines[m]| && CloseSpot(lines, m, p) == At(n, pos + 1)
  {
    var At(m, p) := OpenSpot(lines, n, pos);
    OpenIsShortest(lines, n, pos);
    CloseIsShortest(lines, m, p);
    var a, b := Offset(lines, m, p), Offset(lines, n, pos + 1);
    var At(n', q') := CloseSpot(lines, m, p);
    var b' := Offset(lines, n', q');
    if b' < b {
      SpanSuffix(lines, a, b', b);
    }
    OffsetInjective(lines, n, pos, n', q' - 1);
  }

  /** How the text is cut into lines does not matter to a search from a bracket. */
  lemma {:induction false} LineBreaksDoNotMatter(lines: seq<string>, n: nat, pos: nat)
    requires n < |lines| && pos < |lines[n]| && IsOpener(lines[n][pos])
    ensures var whole, a := Flatten(lines), Offset(lines, n, pos);
            && a < |whole| && whole[a] == lines[n][pos]
            && match CloseSpot(lines, n, pos)
               case At(m, q) => m < |lines| && CloseSpot([whole], 0, a) == At(0, Offset(lines, m, q))
               case Nowhere => CloseSpot([whole], 0, a) == Nowhere
  {
    var whole, a := Flatten(lines), Offset(lines, n, pos);
    CutText(lines, n, pos);
    assert [whole][1..] == [] && Flatten([whole]) == whole;
    assert [whole][..0] == [] && Offset([whole], 0, a) == a;
    CloseIsShortest(lines, n, pos);
    CloseIsShortest([whole], 0, a);
    match CloseSpot(lines, n, pos)
    case At(m, q) =>
      assert BalancedSpan([whole], a, Offset(lines, m, q));
      var At(z, e) := CloseSpot([whole], 0, a);
      assert Offset([whole], 0, e) == e;
      assert BalancedSpan(lines, a, e);
    case Nowhere =>
      forall b: nat ensures !BalancedSpan([whole], a, b) {
        assert !BalancedSpan(lines, a, b);
      }
  }
}
