/**
 From an angle bracket, cpplint's matchers find the end of a template argument list
 exactly where there is one; so where no operator looks like a bracket, each undoes
 the other.
 */
module AngleTheorems {
  import opened Brackets
  import opened ExpressionScanner
  import opened ScannerTheorems
  import opened AngleWords
  import opened Sequences

  // ---- Operators

  /** The text ends with the word "operator" and white space. */
  ghost predicate OperatorBefore(s: string) {
    exists k :: OperatorEndsAt(s, k)
  }

  predicate OperatorEndsAt(s: string, k: nat) {
    && 8 <= k <= |s| && s[k - 8..k] == "operator" && (k == 8 || !InWord(s[k - 9]))
    && forall j :: k <= j < |s| ==> White(s[j])
  }

  predicate White(c: char) {
    c in {' ', '\t', '\n', '\r', 11 as char, 12 as char}
  }

  predicate InWord(c: char) {
    'a' <= c <= 'z' || 'A' <= c <= 'Z' || '0' <= c <= '9' || c == '_'
  }

  lemma {:induction false} TrimmedTo(s: string, k: nat)
    requires 0 < k <= |s| && !IsSpace(s[k - 1]) && forall j :: k <= j < |s| ==> IsSpace(s[j])
    ensures TrimRight(s) == s[..k]
    decreases |s|
  {
    if k < |s| {
      assert s[..|s| - 1][..k] == s[..k];
      TrimmedTo(s[..|s| - 1], k);
    } else {
      assert s[..k] == s;
    }
  }

  lemma {:induction false} TrimOnlySpace(s: string)
    ensures var k := |TrimRight(s)|; k <= |s| && TrimRight(s) == s[..k] && forall j :: k <= j < |s| ==> IsSpace(s[j])
    decreases |s|
  {
    if s != "" && IsSpace(s[|s| - 1]) {
      TrimOnlySpace(s[..|s| - 1]);
      var k := |TrimRight(s)|;
      assert forall j :: 0 <= j < |s| - 1 ==> s[..|s| - 1][j] == s[j];
      assert s[..|s| - 1][..k] == s[..k];
    }
  }

  lemma {:induction false} OperatorFound(s: string)
    requires EndsWithOperator(s)
    ensures OperatorBefore(s)
  {
    TrimOnlySpace(s);
    var t := TrimRight(s);
    assert s[|t| - 8..|t|] == t[|t| - 8..];
    assert OperatorEndsAt(s, |t|);
  }

  lemma {:induction false} OperatorMatches(s: string, k: nat)
    requires OperatorEndsAt(s, k)
    ensures EndsWithOperator(s)
  {
    assert s[k - 8..k][7] == 'r';
    TrimmedTo(s, k);
    assert s[..k][k - 8..] == s[k - 8..k];
  }

  /** The pattern of the scanners says this. */
  lemma {:induction false} OperatorExactly(s: string)
    ensures EndsWithOperator(s) <==> OperatorBefore(s)
  {
    if EndsWithOperator(s) {
      OperatorFound(s);
    }
    if OperatorBefore(s) {
      var k: nat :| OperatorEndsAt(s, k);
      OperatorMatches(s, k);
    }
  }

  // ---- The tokens of the forward matcher

  ghost function ForwardToken(line: string, i: nat): Token
    requires i < |line|
  {
    var c := line[i];
    if c in {'(', '[', '{', ')', ']', '}'} then Bracket(c)
    else if c == '<' then
      if i > 0 && line[i - 1] == '<' then Drop
      else if OperatorBefore(line[..i]) then Other
      else Enter
    else if c == '>' then
      if i > 0 && (line[i - 1] == '-' || OperatorBefore(line[..i - 1])) then Other else Leave
    else if c == ';' then Semi
    else Other
  }

  ghost function ForwardTokens(line: string): (ts: seq<Token>)
    ensures |ts| == |line|
    ensures forall i :: 0 <= i < |line| ==> ts[i] == ForwardToken(line, i)
  {
    seq(|line|, i requires 0 <= i < |line| => ForwardToken(line, i))
  }

  /** What a scan of a line says, and what a run says of its tokens from `i` on. */
  predicate Same(r: LineScan, i: nat, o: Scanned) {
    match r
    case Found(p) => i <= p && o == Done(p - i)
    case Abandoned => o == Failed
    case Unclosed(st) => o == Running(st)
  }

  lemma {:induction false} StepIsToken(line: string, i: nat, stack: seq<char>)
    requires i < |line|
    ensures Same(ForwardStep(line, i, stack), i, TokenStep(ForwardToken(line, i), stack))
  {
    OperatorExactly(line[..i]);
    if i > 0 {
      OperatorExactly(line[..i - 1]);
    }
    if line[i] == '<' {
      assert i == 0 ==> line[..i] == "";
    }
  }

  lemma {:induction false} LineRuns(line: string, i: nat, stack: seq<char>)
    requires i <= |line|
    ensures Same(Forward(line, i, stack), i, Run(ForwardTokens(line)[i..], stack))
    decreases |line| - i
  {
    if i < |line| {
      StepIsToken(line, i, stack);
      assert ForwardTokens(line)[i..] == [ForwardToken(line, i)] + ForwardTokens(line)[i + 1..];
      var step := ForwardStep(line, i, stack);
      RunCons(ForwardToken(line, i), ForwardTokens(line)[i + 1..], stack);
      if step.Unclosed? {
        LineRuns(line, i + 1, step.stack);
      }
    }
  }

  lemma {:induction false} RunKeepsStack(ts: seq<Token>, stack: seq<char>)
    requires stack != []
    ensures Run(ts, stack).Running? ==> Run(ts, stack).stack != []
    ensures Run(ts, stack).Done? ==> 0 < Run(ts, stack).length <= |ts|
    decreases |ts|
  {
    if ts != [] && TokenStep(ts[0], stack).Running? {
      RunKeepsStack(ts[1..], TokenStep(ts[0], stack).stack);
    }
  }

  // ---- Many lines

  /** The tokens from line `k` on. */
  ghost function TokensFrom(lines: seq<string>, k: nat): seq<Token>
    decreases |lines| - k
  {
    if k >= |lines| then [] else ForwardTokens(lines[k]) + TokensFrom(lines, k + 1)
  }

  /** The tokens from a position on. */
  ghost function Rest(lines: seq<string>, n: nat, i: nat): seq<Token>
    requires n < |lines| && i <= |lines[n]|
  {
    ForwardTokens(lines[n])[i..] + TokensFrom(lines, n + 1)
  }

  /** A position at or before another. */
  predicate Upto(lines: seq<string>, n: nat, i: nat, m: nat, q: nat) {
    n <= m < |lines| && i <= |lines[n]| && q <= |lines[m]| && (n == m ==> i <= q)
  }

  /** The tokens between two positions. */
  ghost function Between(lines: seq<string>, n: nat, i: nat, m: nat, q: nat): seq<Token>
    requires Upto(lines, n, i, m, q)
    decreases m
  {
    if n == m then ForwardTokens(lines[n])[i..q]
    else Between(lines, n, i, m - 1, |lines[m - 1]|) + ForwardTokens(lines[m])[..q]
  }

  lemma {:induction false} BetweenLength(lines: seq<string>, n: nat, i: nat, m: nat, q: nat)
    requires Upto(lines, n, i, m, q)
    ensures |Between(lines, n, i, m, q)| == Offset(lines, m, q) - Offset(lines, n, i)
    decreases m
  {
    if n < m {
      BetweenLength(lines, n, i, m - 1, |lines[m - 1]|);
      NextLine(lines, m - 1);
    }
  }

  lemma {:induction false} SplitThenMore(ts: seq<Token>, q: nat, more: seq<Token>)
    requires q <= |ts|
    ensures ts + more == ts[..q] + (ts[q..] + more)
  {
  }

  lemma {:induction false} NextLineTokens(lines: seq<string>, m: nat)
    requires 0 < m < |lines|
    ensures Rest(lines, m - 1, |lines[m - 1]|) == ForwardTokens(lines[m]) + TokensFrom(lines, m + 1)
  {
    assert ForwardTokens(lines[m - 1])[|lines[m - 1]|..] == [];
  }

  lemma {:induction false} RestSplits(lines: seq<string>, n: nat, i: nat, m: nat, q: nat)
    requires Upto(lines, n, i, m, q)
    ensures Rest(lines, n, i) == Between(lines, n, i, m, q) + Rest(lines, m, q)
    decreases m
  {
    if n == m {
      assert ForwardTokens(lines[n])[i..] == ForwardTokens(lines[n])[i..q] + ForwardTokens(lines[n])[q..];
    } else {
      var full, ts, more := |lines[m - 1]|, ForwardTokens(lines[m]), TokensFrom(lines, m + 1);
      RestSplits(lines, n, i, m - 1, full);
      NextLineTokens(lines, m);
      SplitThenMore(ts, q, more);
      Assoc(Between(lines, n, i, m - 1, full), ts[..q], ts[q..] + more);
    }
  }

  lemma {:induction false} LinesRun(lines: seq<string>, n: nat, i: nat, stack: seq<char>)
    requires n < |lines| && i <= |lines[n]| && stack != []
    ensures var o := Run(Rest(lines, n, i), stack);
      match CloseFrom(lines, n, Forward(lines[n], i, stack))
      case At(m, q) =>
        Upto(lines, n, i, m, q) && q > 0 && o.Done? && Offset(lines, n, i) + o.length == Offset(lines, m, q)
      case Nowhere => !o.Done?
    decreases |lines| - n
  {
    var ts := ForwardTokens(lines[n])[i..];
    LineRuns(lines[n], i, stack);
    RunKeepsStack(ts, stack);
    RunConcat(ts, TokensFrom(lines, n + 1), stack);
    var r := Forward(lines[n], i, stack);
    if r.Unclosed? && n + 1 < |lines| {
      LinesRun(lines, n + 1, 0, r.stack);
      NextLine(lines, n);
      assert ForwardTokens(lines[n + 1])[0..] == ForwardTokens(lines[n + 1]);
      assert Rest(lines, n + 1, 0) == TokensFrom(lines, n + 1);
    }
  }

  /** A search that begins at the start of a list. */
  function SearchFrom(lines: seq<string>, n: nat, i: nat): Spot
    requires n < |lines| && i <= |lines[n]|
  {
    CloseFrom(lines, n, Forward(lines[n], i, []))
  }

  lemma {:induction false} SearchRuns(lines: seq<string>, n: nat, pos: nat)
    requires n < |lines| && pos < |lines[n]| && ForwardToken(lines[n], pos) == Enter
    ensures var o := Run(Rest(lines, n, pos), []);
      match SearchFrom(lines, n, pos)
      case At(m, q) =>
        Upto(lines, n, pos, m, q) && q > 0 && o.Done? && Offset(lines, n, pos) + o.length == Offset(lines, m, q)
      case Nowhere => !o.Done?
  {
    var tail := Rest(lines, n, pos + 1);
    StepIsToken(lines[n], pos, []);
    assert Rest(lines, n, pos) == [Enter] + tail;
    RunCons(Enter, tail, []);
    LinesRun(lines, n, pos + 1, [] + ['<']);
  }

  /** From the start of a list, the position found is the end of it; there is at most one. */
  lemma {:induction false} SearchFindsList(lines: seq<string>, n: nat, pos: nat, m: nat, q: nat)
    requires n < |lines| && pos < |lines[n]| && ForwardToken(lines[n], pos) == Enter
    requires Upto(lines, n, pos, m, q) && q > 0
    ensures SearchFrom(lines, n, pos) == At(m, q) <==> IsList(Between(lines, n, pos, m, q))
  {
    var ts, span := Rest(lines, n, pos), Between(lines, n, pos, m, q);
    SearchRuns(lines, n, pos);
    RestSplits(lines, n, pos, m, q);
    BetweenLength(lines, n, pos, m, q);
    assert ts[..|span|] == span;
    assert ts[0] == ForwardToken(lines[n], pos);
    RunFindsList(ts, |span|);
    if IsList(span) {
      var At(m', q') := SearchFrom(lines, n, pos);
      OffsetInjective(lines, m, q - 1, m', q' - 1);
    }
  }

  lemma {:induction false} LastToken(lines: seq<string>, n: nat, i: nat, m: nat, q: nat)
    requires Upto(lines, n, i, m, q) && q > 0 && (n == m ==> i < q)
    ensures var ts := Between(lines, n, i, m, q); ts != [] && ts[|ts| - 1] == ForwardToken(lines[m], q - 1)
  {
  }

  lemma {:induction false} ListEndsWithLeave(ts: seq<Token>)
    requires IsList(ts)
    ensures ts != [] && ts[|ts| - 1] == Leave
  {
  }

  /**
   From a '<' that is no operator, CloseExpression returns a position if and only if
   what lies between is a whole template argument list; so it is behind a '>'.
   */
  lemma {:induction false} CloseListExactly(lines: seq<string>, n: nat, pos: nat, m: nat, q: nat)
    requires n < |lines| && pos < |lines[n]| && ForwardToken(lines[n], pos) == Enter
    requires pos + 1 < |lines[n]| ==> lines[n][pos + 1] !in {'<', '='}
    requires Upto(lines, n, pos, m, q) && q > 0
    ensures CloseSpot(lines, n, pos) == At(m, q) <==> IsList(Between(lines, n, pos, m, q))
  {
    SearchFindsList(lines, n, pos, m, q);
  }

  /** Nothing else is ever returned from such a '<'. */
  lemma {:induction false} CloseListInRange(lines: seq<string>, n: nat, pos: nat)
    requires n < |lines| && pos < |lines[n]| && ForwardToken(lines[n], pos) == Enter
    ensures var r := CloseSpot(lines, n, pos);
      if pos + 1 < |lines[n]| && lines[n][pos + 1] in {'<', '='} then r == Nowhere
      else r.At? ==> Upto(lines, n, pos, r.line, r.pos) && r.pos > 0 && lines[r.line][r.pos - 1] == '>'
  {
    SearchRuns(lines, n, pos);
    var r := SearchFrom(lines, n, pos);
    if r.At? {
      SearchFindsList(lines, n, pos, r.line, r.pos);
      ListEndsWithLeave(Between(lines, n, pos, r.line, r.pos));
      SpanNotEmpty(lines, n, pos, r.line, r.pos);
      LastToken(lines, n, pos, r.line, r.pos);
    }
  }

  lemma {:induction false} SpanNotEmpty(lines: seq<string>, n: nat, pos: nat, m: nat, q: nat)
    requires Upto(lines, n, pos, m, q) && Between(lines, n, pos, m, q) != []
    ensures n == m ==> pos < q
  {
  }

  /**
   From a '<' of an operator the search goes on to the next bracket of the line, and
   does what it would do from there.
   */
  lemma {:induction false} OperatorIsPassed(lines: seq<string>, n: nat, pos: nat, k: nat)
    requires n < |lines| && pos < k <= |lines[n]| && lines[n][pos] == '<' && ForwardToken(lines[n], pos) != Enter
    requires pos + 1 < |lines[n]| ==> lines[n][pos + 1] !in {'<', '='}
    requires forall j :: pos < j < k ==> ForwardToken(lines[n], j) in {Other, Leave, Drop}
    ensures k == |lines[n]| ==> CloseSpot(lines, n, pos) == Nowhere
    ensures k < |lines[n]| ==> CloseSpot(lines, n, pos) == SearchFrom(lines, n, k)
    ensures k < |lines[n]| && IsOpener(lines[n][k]) ==> CloseSpot(lines, n, pos) == CloseSpot(lines, n, k)
    ensures k < |lines[n]| && (IsCloser(lines[n][k]) || lines[n][k] == ';') ==> CloseSpot(lines, n, pos) == Nowhere
  {
    StepIsToken(lines[n], pos, []);
    PassTo(lines[n], pos + 1, k);
    if k < |lines[n]| {
      StepIsToken(lines[n], k, []);
    }
  }

  lemma {:induction false} PassTo(line: string, i: nat, k: nat)
    requires i <= k <= |line| && forall j :: i <= j < k ==> ForwardToken(line, j) in {Other, Leave, Drop}
    ensures Forward(line, i, []) == Forward(line, k, [])
    decreases k - i
  {
    if i < k {
      assert ForwardToken(line, i) in {Other, Leave, Drop};
      StepIsToken(line, i, []);
      PassTo(line, i + 1, k);
    }
  }

  // ---- The tokens of the backward matcher, from right to left

  /** The '>' is part of "->", of ">=" between spaces, or of an operator's name. */
  ghost predicate BackOperator(line: string, i: nat)
    requires i < |line|
  {
    i > 0 &&
    (|| line[i - 1] == '-'
     || (i + 2 < |line| && White(line[i - 1]) && line[i] == '>' && line[i + 1] == '=' && White(line[i + 2]))
     || OperatorBefore(line[..i]))
  }

  /** The matcher steps over this character and the one before it. */
  ghost predicate Stepped(line: string, i: nat)
    requires i < |line|
  {
    (line[i] == '>' && BackOperator(line, i)) || (line[i] == '<' && i > 0 && line[i - 1] == '<')
  }

  ghost function BackToken(line: string, i: nat): Token
    requires i < |line|
  {
    var c := line[i];
    if c in {'(', '[', '{', ')', ']', '}'} then Bracket(Flip(c))
    else if c == '>' then if BackOperator(line, i) then Other else Enter
    else if c == '<' then if i > 0 && line[i - 1] == '<' then Other else Leave
    else if c == ';' then Semi
    else Other
  }

  /** The tokens of the first `n` characters, the last character first. */
  ghost function BackTokens(line: string, n: nat): (ts: seq<Token>)
    requires n <= |line|
    ensures |ts| == n
    decreases n
  {
    if n == 0 then []
    else if Stepped(line, n - 1) then [Other, Other] + BackTokens(line, n - 2)
    else [BackToken(line, n - 1)] + BackTokens(line, n - 1)
  }

  /** A stack of the backward matcher, turned round. */
  function TurnedChar(c: char): char {
    if c == '>' then '<' else if c == '<' then '>' else Flip(c)
  }

  function TurnedStack(stack: seq<char>): (s: seq<char>)
    ensures |s| == |stack|
    ensures forall i :: 0 <= i < |s| ==> s[i] == TurnedChar(stack[i])
  {
    seq(|stack|, i requires 0 <= i < |stack| => TurnedChar(stack[i]))
  }

  lemma {:induction false} TurnedPops(stack: seq<char>)
    ensures PopAngles(TurnedStack(stack), '<') == TurnedStack(PopAngles(stack, '>'))
    decreases |stack|
  {
    if stack != [] && stack[|stack| - 1] == '>' {
      assert TurnedStack(stack)[..|stack| - 1] == TurnedStack(stack[..|stack| - 1]);
      TurnedPops(stack[..|stack| - 1]);
    }
  }

  lemma {:induction false} TurnedEnds(stack: seq<char>, c: char)
    ensures TurnedStack(stack + [c]) == TurnedStack(stack) + [TurnedChar(c)]
    ensures stack != [] ==> TurnedStack(Init(stack)) == Init(TurnedStack(stack))
    ensures TopIs(TurnedStack(stack), '<') <==> TopIs(stack, '>')
  {
  }

  /** What a backward scan of `n` characters says, and what a run says of their tokens. */
  predicate SameBack(r: LineScan, n: nat, o: Scanned) {
    match r
    case Found(p) => p <= n && o == Done(n - p)
    case Abandoned => o == Failed
    case Unclosed(st) => o == Running(TurnedStack(st))
  }

  lemma {:induction false} SkipsExactly(line: string, i: nat)
    requires i < |line|
    ensures Skips(line, i) <==> Stepped(line, i)
    ensures GreaterIsOperator(line, i) && line[i] == '>' <==> BackOperator(line, i) && line[i] == '>'
  {
    OperatorExactly(line[..i]);
    if i > 0 && i + 2 < |line| {
      assert line[i - 1..][1] == line[i] && line[i - 1..][2] == line[i + 1] && line[i - 1..][3] == line[i + 2];
    }
  }

  lemma {:induction false} BackStepIsToken(line: string, i: nat, stack: seq<char>)
    requires i < |line|
    ensures SameBack(BackStep(line, i, stack), i + 1, TokenStep(BackToken(line, i), TurnedStack(stack)))
  {
    var c := line[i];
    SkipsExactly(line, i);
    TurnedEnds(stack, c);
    if IsOpener(c) {
      TurnedOpener(line, i, stack);
    } else if c == ';' {
      TurnedPops(stack);
    }
  }

  lemma {:induction false} TurnedOpener(line: string, i: nat, stack: seq<char>)
    requires i < |line| && IsOpener(line[i])
    ensures SameBack(BackStep(line, i, stack), i + 1, TokenStep(Bracket(Flip(line[i])), TurnedStack(stack)))
  {
    var st := PopAngles(stack, '>');
    TurnedPops(stack);
    TurnedEnds(st, line[i]);
  }

  lemma {:induction false} BackRuns(line: string, n: nat, stack: seq<char>)
    requires n <= |line|
    ensures SameBack(Back(line, n, stack), n, Run(BackTokens(line, n), TurnedStack(stack)))
    decreases n
  {
    if n > 0 {
      var step := BackStep(line, n - 1, stack);
      BackStepIsToken(line, n - 1, stack);
      SkipsExactly(line, n - 1);
      if Stepped(line, n - 1) {
        assert step == Unclosed(stack);
        BackRuns(line, n - 2, stack);
        TwoOthers(BackTokens(line, n - 2), TurnedStack(stack));
      } else {
        RunCons(BackToken(line, n - 1), BackTokens(line, n - 1), TurnedStack(stack));
        if step.Unclosed? {
          BackRuns(line, n - 1, step.stack);
        }
      }
    }
  }

  lemma {:induction false} TwoOthers(more: seq<Token>, stack: seq<char>)
    ensures Run([Other, Other] + more, stack) == Run(more, stack).After(2)
  {
    assert [Other, Other] + more == [Other] + ([Other] + more);
    RunCons(Other, [Other] + more, stack);
    RunCons(Other, more, stack);
  }

  /** The tokens before line `n`, from right to left. */
  ghost function TokensBefore(lines: seq<string>, n: nat): seq<Token>
    requires n <= |lines|
    decreases n
  {
    if n == 0 then [] else BackTokens(lines[n - 1], |lines[n - 1]|) + TokensBefore(lines, n - 1)
  }

  ghost function RestBefore(lines: seq<string>, n: nat, i: nat): seq<Token>
    requires n < |lines| && i <= |lines[n]|
  {
    BackTokens(lines[n], i) + TokensBefore(lines, n)
  }

  /** The tokens that the backward matcher reads from the second position to the first. */
  ghost function BackBetween(lines: seq<string>, m: nat, p: nat, n: nat, i: nat): seq<Token>
    requires Upto(lines, m, p, n, i)
    decreases n
  {
    if m == n then BackTokens(lines[n], i)[..i - p]
    else BackTokens(lines[n], i) + BackBetween(lines, m, p, n - 1, |lines[n - 1]|)
  }

  lemma {:induction false} BackBetweenLength(lines: seq<string>, m: nat, p: nat, n: nat, i: nat)
    requires Upto(lines, m, p, n, i)
    ensures |BackBetween(lines, m, p, n, i)| == Offset(lines, n, i) - Offset(lines, m, p)
    ensures BackBetween(lines, m, p, n, i) <= RestBefore(lines, n, i)
    decreases n
  {
    if m < n {
      BackBetweenLength(lines, m, p, n - 1, |lines[n - 1]|);
      NextLine(lines, n - 1);
    }
  }

  lemma {:induction false} LinesRunBack(lines: seq<string>, n: nat, i: nat, stack: seq<char>)
    requires n < |lines| && i <= |lines[n]| && stack != []
    ensures var o := Run(RestBefore(lines, n, i), TurnedStack(stack));
      match OpenFrom(lines, n, Back(lines[n], i, stack))
      case At(m, p) =>
        Upto(lines, m, p, n, i) && p < |lines[m]| && o.Done? && Offset(lines, m, p) + o.length == Offset(lines, n, i)
      case Nowhere => !o.Done?
    decreases n
  {
    var ts := BackTokens(lines[n], i);
    BackRuns(lines[n], i, stack);
    RunKeepsStack(ts, TurnedStack(stack));
    RunConcat(ts, TokensBefore(lines, n), TurnedStack(stack));
    var r := Back(lines[n], i, stack);
    if r.Unclosed? && n > 0 {
      LinesRunBack(lines, n - 1, |lines[n - 1]|, r.stack);
      NextLine(lines, n - 1);
    }
  }

  lemma {:induction false} OpenRuns(lines: seq<string>, n: nat, pos: nat)
    requires n < |lines| && pos < |lines[n]| && lines[n][pos] == '>' && !BackOperator(lines[n], pos)
    ensures var o, ts := Run(RestBefore(lines, n, pos + 1), []), RestBefore(lines, n, pos + 1);
      && ts != [] && ts[0] == Enter
      && match OpenSpot(lines, n, pos)
         case At(m, p) => Upto(lines, m, p, n, pos + 1) && p < |lines[m]|
                          && o.Done? && Offset(lines, m, p) + o.length == Offset(lines, n, pos + 1)
         case Nowhere => !o.Done?
  {
    var tail := RestBefore(lines, n, pos);
    OpenStarts(lines, n, pos);
    RunCons(Enter, tail, []);
    assert TurnedStack(['>']) == ['<'] && [] + ['<'] == ['<'];
    LinesRunBack(lines, n, pos, ['>']);
  }

  lemma {:induction false} OpenStarts(lines: seq<string>, n: nat, pos: nat)
    requires n < |lines| && pos < |lines[n]| && lines[n][pos] == '>' && !BackOperator(lines[n], pos)
    ensures RestBefore(lines, n, pos + 1) == [Enter] + RestBefore(lines, n, pos)
    ensures OpenSpot(lines, n, pos) == OpenFrom(lines, n, Back(lines[n], pos, ['>']))
  {
    SkipsExactly(lines[n], pos);
    assert [] + ['>'] == ['>'];
    assert BackStep(lines[n], pos, []) == Unclosed(['>']);
  }

  /**
   From a '>' that is no operator, ReverseCloseExpression returns a position if and
   only if what it reads from there back is a whole template argument list.
   */
  lemma {:induction false} OpenListExactly(lines: seq<string>, n: nat, pos: nat, m: nat, p: nat)
    requires n < |lines| && pos < |lines[n]| && lines[n][pos] == '>' && !BackOperator(lines[n], pos)
    requires Upto(lines, m, p, n, pos + 1) && p < |lines[m]|
    ensures OpenSpot(lines, n, pos) == At(m, p) <==> IsList(BackBetween(lines, m, p, n, pos + 1))
  {
    var ts, span := RestBefore(lines, n, pos + 1), BackBetween(lines, m, p, n, pos + 1);
    OpenRuns(lines, n, pos);
    BackBetweenLength(lines, m, p, n, pos + 1);
    assert ts[..|span|] == span;
    RunFindsList(ts, |span|);
    if IsList(span) {
      var At(m', p') := OpenSpot(lines, n, pos);
      OffsetInjective(lines, m, p, m', p');
    }
  }

  lemma {:induction false} BackTokenAt(line: string, n: nat, j: nat)
    requires j < n <= |line| && BackTokens(line, n)[j] == Leave
    ensures line[n - 1 - j] == '<'
    decreases n
  {
    if Stepped(line, n - 1) {
      BackTokenAt(line, n - 2, j - 2);
    } else if j > 0 {
      BackTokenAt(line, n - 1, j - 1);
    }
  }

  lemma {:induction false} FirstIsLess(lines: seq<string>, m: nat, p: nat, n: nat, i: nat)
    requires Upto(lines, m, p, n, i) && p < |lines[m]| && IsList(BackBetween(lines, m, p, n, i))
    ensures lines[m][p] == '<'
    decreases n
  {
    var ts := BackBetween(lines, m, p, n, i);
    ListEndsWithLeave(ts);
    LastBackToken(lines, m, p, n, i);
  }

  lemma {:induction false} LastBackToken(lines: seq<string>, m: nat, p: nat, n: nat, i: nat)
    requires Upto(lines, m, p, n, i) && p < |lines[m]|
    requires var ts := BackBetween(lines, m, p, n, i); ts != [] && ts[|ts| - 1] == Leave
    ensures lines[m][p] == '<'
    decreases n
  {
    if m == n {
      BackTokenAt(lines[n], i, i - p - 1);
    } else {
      var rest := BackBetween(lines, m, p, n - 1, |lines[n - 1]|);
      BackBetweenLength(lines, m, p, n - 1, |lines[n - 1]|);
      OffsetsGrow(lines, m, n - 1);
      NextLine(lines, m);
      LastBackToken(lines, m, p, n - 1, |lines[n - 1]|);
    }
  }

  /** What is found is in front of the '>' and is a '<'. */
  lemma {:induction false} OpenListInRange(lines: seq<string>, n: nat, pos: nat)
    requires n < |lines| && pos < |lines[n]| && lines[n][pos] == '>' && !BackOperator(lines[n], pos)
    ensures var r := OpenSpot(lines, n, pos);
      r.At? ==> Upto(lines, r.line, r.pos, n, pos) && r.pos < |lines[r.line]| && lines[r.line][r.pos] == '<'
  {
    OpenRuns(lines, n, pos);
    var r := OpenSpot(lines, n, pos);
    if r.At? {
      OpenListExactly(lines, n, pos, r.line, r.pos);
      FirstIsLess(lines, r.line, r.pos, n, pos + 1);
    }
  }

  /**
   From a '>' of an operator the search goes on two characters before it, to the next
   bracket of the line, and does what it would do from there.
   */
  lemma {:induction false} OperatorIsPassedBack(lines: seq<string>, n: nat, pos: nat, k: nat)
    requires n < |lines| && pos < |lines[n]| && lines[n][pos] == '>' && BackOperator(lines[n], pos)
    requires k + 1 < pos
    requires forall j :: k < j < pos - 1 ==> !Stepped(lines[n], j) && BackToken(lines[n], j) in {Other, Leave}
    ensures !Stepped(lines[n], k) && BackToken(lines[n], k) in {Other, Leave} && k == 0 ==>
      OpenSpot(lines, n, pos) == Nowhere
    ensures IsCloser(lines[n][k]) || (lines[n][k] == '>' && !BackOperator(lines[n], k)) ==>
      OpenSpot(lines, n, pos) == OpenSpot(lines, n, k)
    ensures IsOpener(lines[n][k]) || lines[n][k] == ';' ==> OpenSpot(lines, n, pos) == Nowhere
  {
    SkipsExactly(lines[n], pos);
    SkipsExactly(lines[n], k);
    PassBackTo(lines[n], pos - 1, k + 1);
    BackStepIsToken(lines[n], k, []);
    assert TurnedStack([]) == [];
  }

  lemma {:induction false} PassBackTo(line: string, i: nat, k: nat)
    requires k <= i <= |line| && forall j :: k <= j < i ==> !Stepped(line, j) && BackToken(line, j) in {Other, Leave}
    ensures Back(line, i, []) == Back(line, k, [])
    decreases i - k
  {
    if k < i {
      BackStepIsToken(line, i - 1, []);
      SkipsExactly(line, i - 1);
      assert TurnedStack([]) == [];
      PassBackTo(line, i - 1, k);
    }
  }

  // ---- Lines without operators that look like brackets

  /** No angle bracket of the line is part of a shift, an arrow, an operator's name, or ">=" between spaces. */
  ghost predicate Clear(line: string) {
    forall i :: 0 <= i < |line| ==> ClearAt(line, i)
  }

  ghost predicate ClearAt(line: string, i: nat)
    requires i < |line|
  {
    i > 0 ==>
      && (line[i] == '<' ==> line[i - 1] != '<' && !OperatorBefore(line[..i]))
      && (line[i] == '>' ==> !OperatorBefore(line[..i - 1]) && !BackOperator(line, i))
  }

  lemma {:induction false} NoOperatorBeforeLine()
    ensures !OperatorBefore("")
  {
  }

  lemma {:induction false} ClearToken(line: string, i: nat)
    requires Clear(line) && i < |line|
    ensures ForwardToken(line, i) != Drop && !Stepped(line, i) && BackToken(line, i) == Turned(ForwardToken(line, i))
  {
    NoOperatorBeforeLine();
    assert ClearAt(line, i);
    assert i == 0 ==> line[..i] == "";
  }

  lemma {:induction false} ClearTokens(line: string, n: nat)
    requires Clear(line) && n <= |line|
    ensures BackTokens(line, n) == Mirrored(ForwardTokens(line)[..n]) && Drop !in ForwardTokens(line)
    decreases n
  {
    forall i: nat | i < |line|
      ensures ForwardToken(line, i) != Drop
    {
      ClearToken(line, i);
    }
    if n > 0 {
      ClearToken(line, n - 1);
      ClearTokens(line, n - 1);
      assert ForwardTokens(line)[..n] == ForwardTokens(line)[..n - 1] + [ForwardToken(line, n - 1)];
      MirroredConcat(ForwardTokens(line)[..n - 1], [ForwardToken(line, n - 1)]);
    }
  }

  ghost predicate ClearLines(lines: seq<string>, n: nat, m: nat) {
    m < |lines| && forall k :: n <= k <= m ==> Clear(lines[k])
  }

  /** On such lines the backward matcher reads the mirror image of what the forward one reads. */
  lemma {:induction false} ClearBetween(lines: seq<string>, n: nat, i: nat, m: nat, q: nat)
    requires Upto(lines, n, i, m, q) && ClearLines(lines, n, m)
    ensures BackBetween(lines, n, i, m, q) == Mirrored(Between(lines, n, i, m, q))
    ensures Drop !in Between(lines, n, i, m, q)
    decreases m
  {
    var ts := ForwardTokens(lines[m]);
    ClearTokens(lines[m], q);
    if n == m {
      assert ts[..q] == ts[..i] + ts[i..q];
      MirroredConcat(ts[..i], ts[i..q]);
    } else {
      var before := Between(lines, n, i, m - 1, |lines[m - 1]|);
      ClearBetween(lines, n, i, m - 1, |lines[m - 1]|);
      MirroredConcat(before, ts[..q]);
    }
  }

  lemma {:induction false} ClearEnter(line: string, i: nat)
    requires Clear(line) && i < |line| && line[i] == '<'
    ensures ForwardToken(line, i) == Enter && (i + 1 < |line| ==> line[i + 1] != '<')
  {
    assert ClearAt(line, i);
    assert i + 1 < |line| ==> ClearAt(line, i + 1);
    NoOperatorBeforeLine();
    assert i == 0 ==> line[..i] == "";
  }

  lemma {:induction false} ClearLeave(line: string, i: nat)
    requires Clear(line) && i < |line|
    ensures !BackOperator(line, i) || line[i] != '>'
  {
    assert ClearAt(line, i);
  }

  /** Searching back from where a list ends gives the '<' it was found from. */
  lemma {:induction false} OpenUndoesCloseList(lines: seq<string>, n: nat, pos: nat)
    requires n < |lines| && pos < |lines[n]| && lines[n][pos] == '<'
    requires var r := CloseSpot(lines, n, pos); r.At? && ClearLines(lines, n, r.line)
    requires Clear(lines[n])
    ensures var At(m, q) := CloseSpot(lines, n, pos);
      m < |lines| && 0 < q <= |lines[m]| && OpenSpot(lines, m, q - 1) == At(n, pos)
  {
    ClearEnter(lines[n], pos);
    CloseListInRange(lines, n, pos);
    var At(m, q) := CloseSpot(lines, n, pos);
    SearchFindsList(lines, n, pos, m, q);
    ClearBetween(lines, n, pos, m, q);
    MirrorList(Between(lines, n, pos, m, q));
    SpanNotEmpty(lines, n, pos, m, q);
    ClearLeave(lines[m], q - 1);
    OpenListExactly(lines, m, q - 1, n, pos);
  }

  /** Searching forward from where a list begins gives its '>' back, unless the '<' begins "<=". */
  lemma {:induction false} CloseUndoesOpenList(lines: seq<string>, n: nat, pos: nat)
    requires n < |lines| && pos < |lines[n]| && lines[n][pos] == '>' && Clear(lines[n])
    requires var r := OpenSpot(lines, n, pos); r.At? && ClearLines(lines, r.line, n)
    ensures var At(m, p) := OpenSpot(lines, n, pos);
      && m < |lines| && p < |lines[m]|
      && CloseSpot(lines, m, p) ==
         if p + 1 < |lines[m]| && lines[m][p + 1] == '=' then Nowhere else At(n, pos + 1)
  {
    ClearLeave(lines[n], pos);
    OpenListInRange(lines, n, pos);
    var At(m, p) := OpenSpot(lines, n, pos);
    ClearEnter(lines[m], p);
    BetweenIsList(lines, n, pos, m, p);
    SearchFindsList(lines, m, p, n, pos + 1);
    CloseListInRange(lines, m, p);
  }

  /** What the backward matcher has read as a list is one for the forward matcher. */
  lemma {:induction false} BetweenIsList(lines: seq<string>, n: nat, pos: nat, m: nat, p: nat)
    requires n < |lines| && pos < |lines[n]| && lines[n][pos] == '>' && !BackOperator(lines[n], pos)
    requires Upto(lines, m, p, n, pos + 1) && p < |lines[m]| && ClearLines(lines, m, n)
    requires OpenSpot(lines, n, pos) == At(m, p)
    ensures IsList(Between(lines, m, p, n, pos + 1))
  {
    OpenListExactly(lines, n, pos, m, p);
    ClearBetween(lines, m, p, n, pos + 1);
    MirroredTwice(Between(lines, m, p, n, pos + 1));
    MirrorList(BackBetween(lines, m, p, n, pos + 1));
  }

  // ---- An example

  lemma {:induction false} PlainTokens(n: nat) returns (w: Inside)
    ensures w.WellFormed() && w.Yield() == seq(n, _ => Other)
  {
    w := Nil;
    if n > 0 {
      var rest := PlainTokens(n - 1);
      w := Plain(Other, rest);
    }
  }

  /** A '<', the word "operator", and a '>'. */
  predicate IsExample(line: string) {
    && |line| == 10 && line[0] == '<' && line[9] == '>' && line[1..9] == "operator"
    && forall i :: 0 < i < 9 ==> line[i] !in {'<', '>', '(', ')', '[', ']', '{', '}', ';'}
  }

  lemma {:induction false} FirstOfExample(line: string)
    requires IsExample(line)
    ensures ForwardToken(line, 0) == Enter
  {
    NoOperatorBeforeLine();
    assert line[..0] == "";
  }

  lemma {:induction false} LastOfExample(line: string)
    requires IsExample(line)
    ensures ForwardToken(line, 9) == Leave && BackOperator(line, 9)
  {
    var short, long := line[..8], line[..9];
    var head := short[0..8];
    assert head[0] == '<' && head != "operator";
    forall k: nat
      ensures !OperatorEndsAt(short, k)
    {
    }
    assert long[1..9] == line[1..9];
    assert OperatorEndsAt(long, 9);
    assert line[8] == line[1..9][7];
  }

  lemma {:induction false} TokensOfExample(line: string)
    requires IsExample(line)
    ensures ForwardTokens(line) == [Enter] + (seq(8, _ => Other) + [Leave])
  {
    FirstOfExample(line);
    LastOfExample(line);
    var ts := ForwardTokens(line);
    assert forall i :: 0 < i < 9 ==> ts[i] == Other;
  }

  /**
   Before a '>' the forward matcher looks for the word "operator" one character too
   early. The name "operator>" ends a list for it, and only for it.
   */
  lemma {:induction false} OperatorNameIsNotUndone()
    ensures CloseSpot(["<operator>"], 0, 0) == At(0, 10) && OpenSpot(["<operator>"], 0, 9) == Nowhere
  {
    ExampleIsNotUndone("<operator>");
  }

  lemma {:induction false} ExampleIsNotUndone(line: string)
    requires IsExample(line)
    ensures CloseSpot([line], 0, 0) == At(0, 10) && OpenSpot([line], 0, 9) == Nowhere
  {
    var lines, ts := [line], ForwardTokens(line);
    FirstOfExample(line);
    LastOfExample(line);
    TokensOfExample(line);
    var w := PlainTokens(8);
    assert Between(lines, 0, 0, 0, 10) == ts[0..10] == ts;
    CloseListExactly(lines, 0, 0, 0, 10);
    OperatorIsPassedBack(lines, 0, 9, 0);
  }
}
