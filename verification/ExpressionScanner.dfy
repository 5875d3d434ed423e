/**
 cpplint's two multi-line bracket matchers: CloseExpression looks forward for
 the end of an expression, ReverseCloseExpression looks backward for its start.
 Each carries one stack over the lines, on which it also puts angle brackets
 that may turn out to be operators.

 The scanners are the methods. The functions Forward, CloseSpot, Back and OpenSpot say
 which position they return; ScannerTheorems compares those
 positions with the language of balanced brackets over the whole text.
 */
module ExpressionScanner {
  import opened Brackets

  // ---- The regular expressions the scanners use

  predicate IsSpace(c: char) {
    c == ' ' || c == '\t' || c == '\n' || c == '\r' || c == 11 as char || c == 12 as char
  }

  predicate IsWordChar(c: char) {
    'a' <= c <= 'z' || 'A' <= c <= 'Z' || '0' <= c <= '9' || c == '_'
  }

  function TrimRight(s: string): string {
    if s != "" && IsSpace(s[|s| - 1]) then TrimRight(s[..|s| - 1]) else s
  }

  /** The pattern \boperator\s*$ occurs in `s`. */
  predicate EndsWithOperator(s: string) {
    var t := TrimRight(s);
    && |t| >= 8
    && t[|t| - 8..] == "operator"
    && (|t| == 8 || !IsWordChar(t[|t| - 9]))
  }

  /** The pattern \s>=\s matches at the start of `s`. */
  predicate StartsWithSpacedGe(s: string) {
    |s| >= 4 && IsSpace(s[0]) && s[1] == '>' && s[2] == '=' && IsSpace(s[3])
  }

  /** The pattern <[<=] matches at the start of `s`. */
  predicate StartsWithShiftOrLe(s: string) {
    |s| >= 2 && s[0] == '<' && (s[1] == '<' || s[1] == '=')
  }

  // ---- One line

  /** (index, None), (-1, None) and (-1, stack) of the source. */
  datatype LineScan = Found(pos: nat) | Abandoned | Unclosed(stack: seq<char>)

  /** The stack without the angle brackets on its top. */
  function PopAngles(stack: seq<char>, angle: char): (r: seq<char>)
    ensures r == [] || r[|r| - 1] != angle
    ensures |r| <= |stack|
  {
    if stack != [] && stack[|stack| - 1] == angle then PopAngles(stack[..|stack| - 1], angle) else stack
  }

  function Init(s: seq<char>): seq<char>
    requires s != []
  {
    s[..|s| - 1]
  }

  predicate TopIs(stack: seq<char>, c: char) {
    stack != [] && stack[|stack| - 1] == c
  }

  /** What the forward scanner does with the character at `i`. */
  function ForwardStep(line: string, i: nat, stack: seq<char>): LineScan
    requires i < |line|
  {
    var c := line[i];
    if IsOpener(c) then
      Unclosed(stack + [c])
    else if c == '<' then
      if i > 0 && line[i - 1] == '<' then
        if TopIs(stack, '<') then
          if |stack| == 1 then Abandoned else Unclosed(Init(stack))
        else
          Unclosed(stack)
      else if i > 0 && EndsWithOperator(line[..i]) then
        Unclosed(stack)
      else
        Unclosed(stack + ['<'])
    else if IsCloser(c) then
      var st := PopAngles(stack, '<');
      if st == [] || Flip(st[|st| - 1]) != c then Abandoned
      else if |st| == 1 then Found(i + 1)
      else Unclosed(Init(st))
    else if c == '>' then
      if i > 0 && (line[i - 1] == '-' || EndsWithOperator(line[..i - 1])) then
        Unclosed(stack)
      else if TopIs(stack, '<') then
        if |stack| == 1 then Found(i + 1) else Unclosed(Init(stack))
      else
        Unclosed(stack)
    else if c == ';' then
      var st := PopAngles(stack, '<');
      if st == [] then Abandoned else Unclosed(st)
    else
      Unclosed(stack)
  }

  function Forward(line: string, i: nat, stack: seq<char>): LineScan
    decreases |line| - i
  {
    if i >= |line| then
      Unclosed(stack)
    else
      match ForwardStep(line, i, stack)
      case Unclosed(st) => Forward(line, i + 1, st)
      case r => r
  }

  /** The '>' at `i` is part of "->", ">=" or an operator name. */
  predicate GreaterIsOperator(line: string, i: nat)
    requires i < |line|
  {
    i > 0 && (line[i - 1] == '-' || StartsWithSpacedGe(line[i - 1..]) || EndsWithOperator(line[..i]))
  }

  /** The backward scanner steps over the character before `i` as well. */
  predicate Skips(line: string, i: nat)
    requires i < |line|
  {
    (line[i] == '>' && GreaterIsOperator(line, i)) || (line[i] == '<' && i > 0 && line[i - 1] == '<')
  }

  /** What the backward scanner does with the character at `i`. */
  function BackStep(line: string, i: nat, stack: seq<char>): LineScan
    requires i < |line|
  {
    var c := line[i];
    if IsCloser(c) then
      Unclosed(stack + [c])
    else if Skips(line, i) then
      Unclosed(stack)
    else if c == '>' then
      Unclosed(stack + ['>'])
    else if c == '<' then
      if TopIs(stack, '>') then
        if |stack| == 1 then Found(i) else Unclosed(Init(stack))
      else
        Unclosed(stack)
    else if IsOpener(c) then
      var st := PopAngles(stack, '>');
      if st == [] || Flip(st[|st| - 1]) != c then Abandoned
      else if |st| == 1 then Found(i)
      else Unclosed(Init(st))
    else if c == ';' then
      var st := PopAngles(stack, '>');
      if st == [] then Abandoned else Unclosed(st)
    else
      Unclosed(stack)
  }

  /** The scan of the first `n` characters of the line, from right to left. */
  function Back(line: string, n: nat, stack: seq<char>): LineScan
    requires n <= |line|
    decreases n
  {
    if n == 0 then
      Unclosed(stack)
    else
      match BackStep(line, n - 1, stack)
      case Unclosed(st) => Back(line, if Skips(line, n - 1) then n - 2 else n - 1, st)
      case r => r
  }

  method FindEndOfExpressionInLine(line: string, startpos: nat, stack0: seq<char>)
    returns (endPos: int, stack: seq<char>, abandoned: bool)
    ensures match Forward(line, startpos, stack0)
            case Found(p) => endPos == p
            case Abandoned => endPos == -1 && abandoned
            case Unclosed(st) => endPos == -1 && !abandoned && stack == st
  {
    stack := stack0;
    var i := startpos;
    while i < |line|
      invariant Forward(line, i, stack) == Forward(line, startpos, stack0)
    {
      ghost var before := stack;
      var c := line[i];
      if IsOpener(c) {
        stack := stack + [c];
      } else if c == '<' {
        if i > 0 && line[i - 1] == '<' {
          if TopIs(stack, '<') {
            stack := stack[..|stack| - 1];
            if stack == [] {
              return -1, [], true;
            }
          }
        } else if i > 0 && EndsWithOperator(line[..i]) {
        } else {
          stack := stack + ['<'];
        }
      } else if IsCloser(c) {
        while TopIs(stack, '<')
          invariant PopAngles(stack, '<') == PopAngles(before, '<')
          decreases |stack|
        {
          stack := stack[..|stack| - 1];
        }
        if stack == [] {
          return -1, [], true;
        }
        var top := stack[|stack| - 1];
        if (top == '(' && c == ')') || (top == '[' && c == ']') || (top == '{' && c == '}') {
          stack := stack[..|stack| - 1];
          if stack == [] {
            return i + 1, [], true;
          }
        } else {
          return -1, [], true;
        }
      } else if c == '>' {
        if i > 0 && (line[i - 1] == '-' || EndsWithOperator(line[..i - 1])) {
        } else if TopIs(stack, '<') {
          stack := stack[..|stack| - 1];
          if stack == [] {
            return i + 1, [], true;
          }
        }
      } else if c == ';' {
        while TopIs(stack, '<')
          invariant PopAngles(stack, '<') == PopAngles(before, '<')
          decreases |stack|
        {
          stack := stack[..|stack| - 1];
        }
        if stack == [] {
          return -1, [], true;
        }
      }
      assert ForwardStep(line, i, before) == Unclosed(stack);
      i := i + 1;
    }
    return -1, stack, false;
  }

  method FindStartOfExpressionInLine(line: string, endpos: int, stack0: seq<char>)
    returns (startPos: int, stack: seq<char>, abandoned: bool)
    requires -1 <= endpos < |line|
    ensures match Back(line, endpos + 1, stack0)
            case Found(p) => startPos == p
            case Abandoned => startPos == -1 && abandoned
            case Unclosed(st) => startPos == -1 && !abandoned && stack == st
  {
    stack := stack0;
    var i := endpos;
    while i >= 0
      invariant -1 <= i < |line|
      invariant Back(line, i + 1, stack) == Back(line, endpos + 1, stack0)
    {
      ghost var before, at := stack, i;
      var c := line[i];
      if IsCloser(c) {
        stack := stack + [c];
      } else if c == '>' {
        if GreaterIsOperator(line, i) {
          i := i - 1;
        } else {
          stack := stack + ['>'];
        }
      } else if c == '<' {
        if i > 0 && line[i - 1] == '<' {
          i := i - 1;
        } else if TopIs(stack, '>') {
          stack := stack[..|stack| - 1];
          if stack == [] {
            return i, [], true;
          }
        }
      } else if IsOpener(c) {
        while TopIs(stack, '>')
          invariant PopAngles(stack, '>') == PopAngles(before, '>')
          decreases |stack|
        {
          stack := stack[..|stack| - 1];
        }
        if stack == [] {
          return -1, [], true;
        }
        var top := stack[|stack| - 1];
        if (c == '(' && top == ')') || (c == '[' && top == ']') || (c == '{' && top == '}') {
          stack := stack[..|stack| - 1];
          if stack == [] {
            return i, [], true;
          }
        } else {
          return -1, [], true;
        }
      } else if c == ';' {
        while TopIs(stack, '>')
          invariant PopAngles(stack, '>') == PopAngles(before, '>')
          decreases |stack|
        {
          stack := stack[..|stack| - 1];
        }
        if stack == [] {
          return -1, [], true;
        }
      }
      assert BackStep(line, at, before) == Unclosed(stack);
      i := i - 1;
    }
    return -1, stack, false;
  }

  // ---- Many lines

  datatype Spot = At(line: nat, pos: nat) | Nowhere

  /** The rest of the forward scan when line `n` has given `r`. */
  function CloseFrom(lines: seq<string>, n: nat, r: LineScan): Spot
    requires n < |lines|
    decreases |lines| - n
  {
    match r
    case Found(p) => At(n, p)
    case Abandoned => Nowhere
    case Unclosed(st) =>
      if st == [] || n + 1 == |lines| then Nowhere
      else CloseFrom(lines, n + 1, Forward(lines[n + 1], 0, st))
  }

  /** The position after the end of the expression that starts at `pos` of line `n`. */
  function CloseSpot(lines: seq<string>, n: nat, pos: nat): Spot
    requires n < |lines| && pos < |lines[n]|
  {
    var c := lines[n][pos];
    if (!IsOpener(c) && c != '<') || StartsWithShiftOrLe(lines[n][pos..]) then Nowhere
    else CloseFrom(lines, n, Forward(lines[n], pos, []))
  }

  function OpenFrom(lines: seq<string>, n: nat, r: LineScan): Spot
    requires n < |lines|
    decreases n
  {
    match r
    case Found(p) => At(n, p)
    case Abandoned => Nowhere
    case Unclosed(st) =>
      if st == [] || n == 0 then Nowhere
      else OpenFrom(lines, n - 1, Back(lines[n - 1], |lines[n - 1]|, st))
  }

  /** The position of the start of the expression that ends at `pos` of line `n`. */
  function OpenSpot(lines: seq<string>, n: nat, pos: nat): Spot
    requires n < |lines| && pos < |lines[n]|
  {
    var c := lines[n][pos];
    if !IsCloser(c) && c != '>' then Nowhere
    else OpenFrom(lines, n, Back(lines[n], pos + 1, []))
  }

  method CloseExpression(lines: seq<string>, linenum: nat, pos: nat)
    returns (line: string, endLine: nat, endPos: int)
    requires linenum < |lines| && pos < |lines[linenum]|
    ensures match CloseSpot(lines, linenum, pos)
            case At(n, p) => endLine == n < |lines| && endPos == p && line == lines[n]
            case Nowhere => endLine == |lines| && endPos == -1
    ensures lines[linenum][pos] !in {'(', '[', '{', '<'} ==> endPos == -1
  {
    line := lines[linenum];
    if (!IsOpener(line[pos]) && line[pos] != '<') || StartsWithShiftOrLe(line[pos..]) {
      return line, |lines|, -1;
    }
    var stack, abandoned;
    endPos, stack, abandoned := FindEndOfExpressionInLine(line, pos, []);
    endLine := linenum;
    ghost var r := Forward(line, pos, []);
    if endPos > -1 {
      return;
    }
    while !abandoned && stack != [] && endLine < |lines| - 1
      invariant endLine < |lines| && endPos == -1
      invariant CloseSpot(lines, linenum, pos) == CloseFrom(lines, endLine, r)
      invariant r == if abandoned then Abandoned else Unclosed(stack)
      decreases |lines| - endLine
    {
      endLine := endLine + 1;
      line := lines[endLine];
      r := Forward(line, 0, stack);
      endPos, stack, abandoned := FindEndOfExpressionInLine(line, 0, stack);
      if endPos > -1 {
        return;
      }
    }
    endLine := |lines|;
  }

  method ReverseCloseExpression(lines: seq<string>, linenum: nat, pos: nat)
    returns (line: string, startLine: nat, startPos: int)
    requires linenum < |lines| && pos < |lines[linenum]|
    ensures match OpenSpot(lines, linenum, pos)
            case At(n, p) => startLine == n < |lines| && startPos == p && line == lines[n]
            case Nowhere => startLine == 0 && startPos == -1
    ensures lines[linenum][pos] !in {')', ']', '}', '>'} ==> startPos == -1
  {
    line := lines[linenum];
    if !IsCloser(line[pos]) && line[pos] != '>' {
      return line, 0, -1;
    }
    var stack, abandoned;
    startPos, stack, abandoned := FindStartOfExpressionInLine(line, pos, []);
    startLine := linenum;
    ghost var r := Back(line, pos + 1, []);
    if startPos > -1 {
      return;
    }
    while !abandoned && stack != [] && startLine > 0
      invariant startLine < |lines| && startPos == -1
      invariant OpenSpot(lines, linenum, pos) == OpenFrom(lines, startLine, r)
      invariant r == if abandoned then Abandoned else Unclosed(stack)
      decreases startLine
    {
      startLine := startLine - 1;
      line := lines[startLine];
      r := Back(line, |line|, stack);
      startPos, stack, abandoned := FindStartOfExpressionInLine(line, |line| - 1, stack);
      if startPos > -1 {
        return;
      }
    }
    startLine := 0;
  }
}
