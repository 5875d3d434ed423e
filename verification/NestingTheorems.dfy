/**
 What the handlers of a line mean for the stack of blocks: braces balance, heads
 open and close, labels and parentheses belong to the innermost block, and what
 happens inside a block never touches the blocks around it.
 */
module NestingTheorems {
  import opened Options
  import opened Nesting

  // ---- Braces

  /** Where a character takes the number of open blocks. */
  function Move(d: nat, c: char): nat {
    if c == '{' then d + 1 else if c == '}' && d > 0 then d - 1 else d
  }

  /** The number of open blocks after some text. */
  function Depth(d: nat, text: string): nat
    decreases |text|
  {
    if text == "" then d else Depth(Move(d, text[0]), text[1..])
  }

  function Least(a: nat, b: nat): nat {
    if a < b then a else b
  }

  /** The lowest number of open blocks on the way. */
  function Low(d: nat, text: string): (low: nat)
    ensures low <= d
    decreases |text|
  {
    if text == "" then d
    else Least(d, Low(Move(d, text[0]), text[1..]))
  }

  /** Every head has got its brace. */
  ghost predicate Opened(stack: Stack) {
    forall i :: 0 <= i < |stack| ==> stack[i].seenOpenBrace
  }

  /** A block that a brace has opened on a line. */
  predicate NewBlock(b: BlockInfo, num: nat) {
    (b.kind.Plain? || b.kind.ExternC?) && b.startingLine == num && b.seenOpenBrace
  }

  /** Only tokens count. */
  lemma {:induction false} SkipToToken(d: nat, text: string)
    ensures var i := NextToken(text);
      if i == |text| then Depth(d, text) == Low(d, text) == d
      else
        && Depth(d, text) == Depth(Move(d, text[i]), text[i + 1..])
        && Low(d, text) == Least(d, Low(Move(d, text[i]), text[i + 1..]))
    decreases |text|
  {
    if text != "" && !IsToken(text[0]) {
      SkipToToken(d, text[1..]);
    }
  }

  lemma {:induction false} FirstToken(lex: Lexicon, stack: Stack, line: string, num: nat, next: Stack)
    requires NextToken(line) < |line| && next == ApplyToken(lex, stack, line[NextToken(line)], line, num)
    ensures Braces(lex, stack, line, num) == Braces(lex, next, line[NextToken(line) + 1..], num)
  {
  }

  /** Blocks below `low` are the old ones, those above it are new. */
  ghost predicate NewAbove(stack: Stack, r: Stack, low: nat, num: nat) {
    && Opened(r) && low <= |r| && low <= |stack|
    && (forall i :: 0 <= i < low ==> r[i] == stack[i])
    && forall i :: low <= i < |r| ==> NewBlock(r[i], num)
  }

  lemma {:induction false} NewAboveTwice(stack: Stack, next: Stack, r: Stack, low: nat, num: nat)
    requires NewAbove(stack, next, Least(|stack|, |next|), num) && NewAbove(next, r, low, num)
    ensures NewAbove(stack, r, Least(|stack|, low), num)
  {
  }

  lemma {:induction false} TokenOnOpened(lex: Lexicon, stack: Stack, token: char, line: string, num: nat)
    requires Opened(stack) && IsToken(token)
    ensures var r := ApplyToken(lex, stack, token, line, num);
      |r| == Move(|stack|, token) && NewAbove(stack, r, Least(|stack|, |r|), num)
  {
  }

  /**
   The brace loop on blocks that are open: the depth moves by the braces of the
   line, blocks below the lowest point are the old ones, those above it are new.
   */
  lemma {:induction false} BracesOnOpened(lex: Lexicon, stack: Stack, line: string, num: nat)
    requires Opened(stack)
    ensures var r := Braces(lex, stack, line, num);
      |r| == Depth(|stack|, line) && NewAbove(stack, r, Low(|stack|, line), num)
    decreases |line|
  {
    var i := NextToken(line);
    SkipToToken(|stack|, line);
    if i < |line| {
      var next := ApplyToken(lex, stack, line[i], line, num);
      TokenOnOpened(lex, stack, line[i], line, num);
      FirstToken(lex, stack, line, num, next);
      BracesOnOpened(lex, next, line[i + 1..], num);
      NewAboveTwice(stack, next, Braces(lex, next, line[i + 1..], num), Low(|next|, line[i + 1..]), num);
    }
  }

  // ---- Heads

  /** The tokens after a head take it away at once, or open it and close it again. */
  predicate HeadEnds(d: nat, rest: string) {
    var i := NextToken(rest);
    i < |rest| &&
    if rest[i] == '{' then Low(d + 1, rest[i + 1..]) == d == Depth(d + 1, rest[i + 1..])
    else Low(d, rest[i + 1..]) == d == Depth(d, rest[i + 1..])
  }

  /** The blocks after a head has met its first token. */
  function Under(base: Stack, head: BlockInfo, token: char): Stack {
    if token == '{' then base + [head.(seenOpenBrace := true)] else base
  }

  lemma {:induction false} TokenOnHead(lex: Lexicon, base: Stack, head: BlockInfo, token: char, line: string, num: nat)
    requires !head.seenOpenBrace && IsToken(token)
    ensures ApplyToken(lex, base + [head], token, line, num) ==
            Under(base, head, token)
  {
  }

  lemma {:induction false} HeadThenBraces(lex: Lexicon, base: Stack, head: BlockInfo, line: string, num: nat)
    requires Opened(base) && !head.seenOpenBrace && NextToken(line) < |line|
    ensures var i := NextToken(line);
      && Opened(Under(base, head, line[i]))
      && Braces(lex, base + [head], line, num) == Braces(lex, Under(base, head, line[i]), line[i + 1..], num)
  {
    var i := NextToken(line);
    TokenOnHead(lex, base, head, line[i], line, num);
    FirstToken(lex, base + [head], line, num, Under(base, head, line[i]));
  }

  /** The braces of a text are read on some open blocks: `r` is what they leave. */
  ghost predicate ReadOn(lex: Lexicon, under: Stack, rest: string, num: nat, r: Stack) {
    r == Braces(lex, under, rest, num) && |r| == Depth(|under|, rest) && NewAbove(under, r, Low(|under|, rest), num)
  }

  lemma {:induction false} HeadMeetsToken(lex: Lexicon, base: Stack, head: BlockInfo, line: string, num: nat)
    requires Opened(base) && !head.seenOpenBrace && NextToken(line) < |line|
    ensures var i := NextToken(line);
      ReadOn(lex, Under(base, head, line[i]), line[i + 1..], num, Braces(lex, base + [head], line, num))
  {
    var i := NextToken(line);
    HeadThenBraces(lex, base, head, line, num);
    BracesOnOpened(lex, Under(base, head, line[i]), line[i + 1..], num);
  }

  lemma {:induction false} HeadMeetsNone(lex: Lexicon, base: Stack, head: BlockInfo, line: string, num: nat)
    requires NextToken(line) == |line|
    ensures Braces(lex, base + [head], line, num) == base + [head]
  {
  }

  /**
   A head on top of open blocks waits for a brace; ';', ')' and '}' take it away,
   and a brace opens it, after which it is a block like the others.
   */
  lemma {:induction false} HeadOpensOrGoes(lex: Lexicon, base: Stack, head: BlockInfo, line: string, num: nat)
    requires Opened(base) && !head.seenOpenBrace
    ensures var i, r := NextToken(line), Braces(lex, base + [head], line, num);
      if i == |line| then r == base + [head]
      else ReadOn(lex, if line[i] == '{' then base + [head.(seenOpenBrace := true)] else base, line[i + 1..], num, r)
  {
    if NextToken(line) < |line| {
      HeadMeetsToken(lex, base, head, line, num);
    } else {
      HeadMeetsNone(lex, base, head, line, num);
    }
  }

  /** A head that ends on its line leaves no trace. */
  lemma {:induction false} HeadLeavesNoTrace(lex: Lexicon, base: Stack, head: BlockInfo, line: string, num: nat)
    requires Opened(base) && !head.seenOpenBrace && HeadEnds(|base|, line)
    ensures Braces(lex, base + [head], line, num) == base
  {
    HeadOpensOrGoes(lex, base, head, line, num);
  }

  /**
   A line with a class head that ends on it, by a semicolon or by its own balanced
   braces, only counts its parentheses for the block around it.
   */
  lemma {:induction false} ClassLineLeavesNoTrace(lex: Lexicon, base: Stack, line: Line)
    requires lex.Valid() && Opened(base) && lex.namespaceDecl(line.text) == None
    requires var counted := CountParentheses(lex, base, line.text);
      && lex.classDecl(line.text).Some? && (counted == [] || Top(counted).openParentheses == 0)
      && var decl := lex.classDecl(line.text).value;
         !lex.inTemplate(line.num, decl.endOfHead) && HeadEnds(|base|, decl.rest)
    ensures Body(lex, base, line) == CountParentheses(lex, base, line.text)
  {
    var counted := CountParentheses(lex, base, line.text);
    var decl := lex.classDecl(line.text).value;
    var (heads, rest) := Heads(lex, base, line);
    var head := Top(heads);
    assert heads == counted + [head] && rest == decl.rest && !head.seenOpenBrace && Opened(counted);
    HeadLeavesNoTrace(lex, counted, head, rest, line.num);
  }

  // ---- Locality

  /** Reading the tokens never finds the stack empty; the last one may empty it. */
  predicate TokensStay(lex: Lexicon, stack: Stack, line: string, num: nat)
    decreases |line|
  {
    var i := NextToken(line);
    i == |line| || (stack != [] && TokensStay(lex, ApplyToken(lex, stack, line[i], line, num), line[i + 1..], num))
  }

  /** The effect of some lines without their directives. */
  function Bodies(lex: Lexicon, stack: Stack, lines: seq<Line>): Stack
    requires lex.Valid()
    decreases |lines|
  {
    if lines == [] then stack else Bodies(lex, Body(lex, stack, lines[0]), lines[1..])
  }

  /** Some lines never need a block below these; their last token may close the lowest. */
  ghost predicate Stays(lex: Lexicon, stack: Stack, lines: seq<Line>)
    requires lex.Valid()
    decreases |lines|
  {
    lines == [] ||
    (stack != [] &&
     TokensStay(lex, Heads(lex, stack, lines[0]).0, Heads(lex, stack, lines[0]).1, lines[0].num) &&
     Stays(lex, Body(lex, stack, lines[0]), lines[1..]))
  }

  lemma {:induction false} SetTopIsLocal(base: Stack, above: Stack, b: BlockInfo)
    requires above != []
    ensures Top(base + above) == Top(above) && SetTop(base + above, b) == base + SetTop(above, b)
    ensures Pop(base + above) == base + Pop(above)
  {
  }

  lemma {:induction false} TokenIsLocal(lex: Lexicon, base: Stack, above: Stack, token: char, line: string, num: nat)
    requires above != []
    ensures ApplyToken(lex, base + above, token, line, num) == base + ApplyToken(lex, above, token, line, num)
  {
    SetTopIsLocal(base, above, Top(above).(seenOpenBrace := true));
  }

  lemma {:induction false} FirstTokenIsLocal(lex: Lexicon, base: Stack, above: Stack, line: string, num: nat)
    requires above != [] && NextToken(line) < |line|
    ensures var next := ApplyToken(lex, above, line[NextToken(line)], line, num);
      var rest := line[NextToken(line) + 1..];
      && Braces(lex, above, line, num) == Braces(lex, next, rest, num)
      && Braces(lex, base + above, line, num) == Braces(lex, base + next, rest, num)
  {
    TokenIsLocal(lex, base, above, line[NextToken(line)], line, num);
  }

  lemma {:induction false} BracesAreLocal(lex: Lexicon, base: Stack, above: Stack, line: string, num: nat)
    requires TokensStay(lex, above, line, num)
    ensures Braces(lex, base + above, line, num) == base + Braces(lex, above, line, num)
    decreases |line|
  {
    var i := NextToken(line);
    if i < |line| {
      FirstTokenIsLocal(lex, base, above, line, num);
      BracesAreLocal(lex, base, ApplyToken(lex, above, line[i], line, num), line[i + 1..], num);
    }
  }

  lemma {:induction false} NamespacesAreLocal(lex: Lexicon, base: Stack, above: Stack, line: string, num: nat)
    requires lex.Valid()
    ensures Namespaces(lex, base + above, line, num) ==
            (base + Namespaces(lex, above, line, num).0, Namespaces(lex, above, line, num).1)
    ensures above != [] ==> Namespaces(lex, above, line, num).0 != []
    decreases |line|
  {
    match lex.namespaceDecl(line)
    case None =>
    case Some((name, rest)) =>
      var brace := Find(rest, '{');
      var b := BlockInfo(Namespace(name), num, brace < |rest|, 0, NoAsm);
      assert base + above + [b] == base + (above + [b]);
      NamespacesAreLocal(lex, base, above + [b], if brace < |rest| then rest[brace + 1..] else rest, num);
  }

  lemma {:induction false} ParenthesesAreLocal(lex: Lexicon, base: Stack, above: Stack, text: string)
    requires above != []
    ensures CountParentheses(lex, base + above, text) == base + CountParentheses(lex, above, text)
  {
    SetTopIsLocal(base, above, Top(CountParentheses(lex, above, text)));
  }

  lemma {:induction false} ClassHeadIsLocal(lex: Lexicon, base: Stack, above: Stack, line: string, num: nat)
    requires above != []
    ensures ClassHead(lex, base + above, line, num) ==
            (base + ClassHead(lex, above, line, num).0, ClassHead(lex, above, line, num).1)
    ensures ClassHead(lex, above, line, num).0 != []
  {
    SetTopIsLocal(base, above, Top(above));
    var b := Top(ClassHead(lex, above, line, num).0);
    assert base + above + [b] == base + (above + [b]);
  }

  lemma {:induction false} LabelsAreLocal(lex: Lexicon, base: Stack, above: Stack, text: string)
    requires above != []
    ensures CheckBegin(lex, base + above, text) == base + CheckBegin(lex, above, text)
    ensures Access(lex, base + above, text) == base + Access(lex, above, text)
  {
    SetTopIsLocal(base, above, Top(CheckBegin(lex, above, text)));
    SetTopIsLocal(base, above, Top(Access(lex, above, text)));
  }

  lemma {:induction false} HeadsAreLocal(lex: Lexicon, base: Stack, above: Stack, line: Line)
    requires lex.Valid() && above != []
    ensures Heads(lex, base + above, line) == (base + Heads(lex, above, line).0, Heads(lex, above, line).1)
    ensures Heads(lex, above, line).0 != []
  {
    var stack1 := CountParentheses(lex, above, line.text);
    ParenthesesAreLocal(lex, base, above, line.text);
    NamespacesAreLocal(lex, base, stack1, line.text, line.num);
    var (stack2, rest) := Namespaces(lex, stack1, line.text, line.num);
    ClassHeadIsLocal(lex, base, stack2, rest, line.num);
    var (stack3, rest') := ClassHead(lex, stack2, rest, line.num);
    LabelsAreLocal(lex, base, stack3, line.text);
    LabelsAreLocal(lex, base, CheckBegin(lex, stack3, line.text), rest');
  }

  lemma {:induction false} LinesAreLocal(lex: Lexicon, base: Stack, above: Stack, lines: seq<Line>)
    requires lex.Valid() && Stays(lex, above, lines)
    ensures Bodies(lex, base + above, lines) == base + Bodies(lex, above, lines)
    decreases |lines|
  {
    if lines != [] {
      HeadsAreLocal(lex, base, above, lines[0]);
      var (heads, rest) := Heads(lex, above, lines[0]);
      BracesAreLocal(lex, base, heads, rest, lines[0].num);
      LinesAreLocal(lex, base, Body(lex, above, lines[0]), lines[1..]);
    }
  }

  /** The last `depth` checkpoints are of conditionals without an #else. */
  ghost predicate Unsplit(pp: seq<PreprocessorInfo>, depth: nat) {
    depth <= |pp| && forall i :: |pp| - depth <= i < |pp| ==> !pp[i].seenElse
  }

  /** Without #else the conditionals do nothing to the stack of blocks. */
  lemma {:induction false} DirectivesFade(lex: Lexicon, s: State, depth: nat, lines: seq<Line>)
    requires lex.Valid() && Unsplit(s.pp, depth) && Enclosed(lex, depth, lines)
    requires forall l :: l in lines ==> lex.directive(l.text) != Else
    ensures Run(lex, s, lines).stack == Bodies(lex, s.stack, lines)
    decreases |lines|
  {
    if lines != [] {
      var d := lex.directive(lines[0].text);
      assert lines[0] in lines;
      var next := Step(lex, s, lines[0]);
      var depth' := if d == If then depth + 1 else if d == Endif then depth - 1 else depth;
      assert next.stack == Body(lex, s.stack, lines[0]);
      assert Unsplit(next.pp, depth');
      DirectivesFade(lex, next, depth', lines[1..]);
    }
  }

  /**
   What happens inside a block never touches the blocks around it: on well-nested
   lines that, taken alone, never need a block below `above`, everything around
   stays as it is, whatever namespaces, classes, labels, parentheses, assembly
   and conditionals the lines hold.
   */
  lemma {:induction false} BlocksAreLocal(lex: Lexicon, s: State, base: Stack, above: Stack, lines: seq<Line>)
    requires lex.Valid() && WellNested(lex, lines) && s.stack == base + above
    requires Stays(lex, above, Erase(lex, [], lines))
    ensures Run(lex, s, lines) == State(base + Bodies(lex, above, Erase(lex, [], lines)), s.pp)
  {
    var kept := Erase(lex, [], lines);
    ErasureOnWellNested(lex, s, lines);
    ErasedHasNoElse(lex, [], 0, lines);
    DirectivesFade(lex, s, 0, kept);
    LinesAreLocal(lex, base, above, kept);
  }

  // ---- The lowest block

  /** Reading the tokens never closes the lowest block. */
  predicate TokensKeep(lex: Lexicon, stack: Stack, line: string, num: nat)
    decreases |line|
  {
    var i := NextToken(line);
    i == |line| ||
    var next := ApplyToken(lex, stack, line[i], line, num);
    next != [] && TokensKeep(lex, next, line[i + 1..], num)
  }

  /** Some lines never close the lowest block. */
  ghost predicate Keeps(lex: Lexicon, stack: Stack, lines: seq<Line>)
    requires lex.Valid()
    decreases |lines|
  {
    stack != [] &&
    (lines == [] ||
     (TokensKeep(lex, Heads(lex, stack, lines[0]).0, Heads(lex, stack, lines[0]).1, lines[0].num) &&
      Keeps(lex, Body(lex, stack, lines[0]), lines[1..])))
  }

  /** The lines that begin with the lowest block on top. */
  function Own(lex: Lexicon, stack: Stack, lines: seq<Line>): seq<Line>
    requires lex.Valid()
    decreases |lines|
  {
    if lines == [] then []
    else (if |stack| == 1 then [lines[0]] else []) + Own(lex, Body(lex, stack, lines[0]), lines[1..])
  }

  /** Those of them that no head of a namespace or class begins. */
  function Unheaded(lex: Lexicon, stack: Stack, lines: seq<Line>): seq<Line>
    requires lex.Valid()
    decreases |lines|
  {
    if lines == [] then []
    else
      (if |Heads(lex, stack, lines[0]).0| == 1 then [lines[0]] else []) +
      Unheaded(lex, Body(lex, stack, lines[0]), lines[1..])
  }

  /** The access that the last label among the lines gives. */
  function LastLabel(lex: Lexicon, access: string, lines: seq<Line>): string
    decreases |lines|
  {
    if lines == [] then access
    else LastLabel(lex, if lex.access(lines[0].text).Some? then lex.access(lines[0].text).value else access, lines[1..])
  }

  function Relabelled(lex: Lexicon, kind: Kind, lines: seq<Line>): Kind {
    if kind.Class? then kind.(access := LastLabel(lex, kind.access, lines)) else kind
  }

  /** The parentheses of one line counted for a block, and of some lines. */
  function CountOne(lex: Lexicon, b: BlockInfo, line: Line): BlockInfo {
    Top(CountParentheses(lex, [b], line.text))
  }

  function Counted(lex: Lexicon, b: BlockInfo, lines: seq<Line>): BlockInfo
    decreases |lines|
  {
    if lines == [] then b else Counted(lex, CountOne(lex, b, lines[0]), lines[1..])
  }

  lemma {:induction false} TokensKeepStay(lex: Lexicon, stack: Stack, line: string, num: nat)
    requires stack != [] && TokensKeep(lex, stack, line, num)
    ensures TokensStay(lex, stack, line, num)
    decreases |line|
  {
    var i := NextToken(line);
    if i < |line| {
      TokensKeepStay(lex, ApplyToken(lex, stack, line[i], line, num), line[i + 1..], num);
    }
  }

  lemma {:induction false} KeepsStays(lex: Lexicon, stack: Stack, lines: seq<Line>)
    requires lex.Valid() && Keeps(lex, stack, lines)
    ensures Stays(lex, stack, lines)
    decreases |lines|
  {
    if lines != [] {
      HeadsAreLocal(lex, [], stack, lines[0]);
      var (heads, rest) := Heads(lex, stack, lines[0]);
      TokensKeepStay(lex, heads, rest, lines[0].num);
      KeepsStays(lex, Body(lex, stack, lines[0]), lines[1..]);
    }
  }

  lemma {:induction false} TokenOnLowest(lex: Lexicon, stack: Stack, token: char, line: string, num: nat)
    requires stack != [] && stack[0].seenOpenBrace && ApplyToken(lex, stack, token, line, num) != []
    ensures ApplyToken(lex, stack, token, line, num)[0] == stack[0]
  {
  }

  lemma {:induction false} BracesOnLowest(lex: Lexicon, stack: Stack, line: string, num: nat)
    requires stack != [] && stack[0].seenOpenBrace && TokensKeep(lex, stack, line, num)
    ensures Braces(lex, stack, line, num) != [] && Braces(lex, stack, line, num)[0] == stack[0]
    decreases |line|
  {
    var i := NextToken(line);
    if i < |line| {
      var next := ApplyToken(lex, stack, line[i], line, num);
      TokenOnLowest(lex, stack, line[i], line, num);
      FirstToken(lex, stack, line, num, next);
      BracesOnLowest(lex, next, line[i + 1..], num);
    }
  }

  lemma {:induction false} NamespacesGrow(lex: Lexicon, stack: Stack, line: string, num: nat)
    requires lex.Valid()
    ensures stack <= Namespaces(lex, stack, line, num).0
    ensures |Namespaces(lex, stack, line, num).0| == |stack| ==> Namespaces(lex, stack, line, num).1 == line
    decreases |line|
  {
    match lex.namespaceDecl(line)
    case None =>
    case Some((name, rest)) =>
      var brace := Find(rest, '{');
      var b := BlockInfo(Namespace(name), num, brace < |rest|, 0, NoAsm);
      NamespacesGrow(lex, stack + [b], if brace < |rest| then rest[brace + 1..] else rest, num);
  }

  /** Labels and checks change the block on top only. */
  lemma {:induction false} LabelsOnLowest(lex: Lexicon, stack: Stack, text: string, rest: string)
    requires stack != [] && stack[0].seenOpenBrace
    ensures var r := Access(lex, CheckBegin(lex, stack, text), rest);
      && |r| == |stack|
      && r[0] == if |stack| == 1 && stack[0].kind.Class? && lex.access(rest).Some?
                 then stack[0].(kind := stack[0].kind.(access := lex.access(rest).value)) else stack[0]
  {
  }

  lemma {:induction false} OneLabel(lex: Lexicon, kind: Kind, line: Line)
    ensures Relabelled(lex, kind, []) == kind
    ensures Relabelled(lex, kind, [line]) ==
            if kind.Class? && lex.access(line.text).Some? then kind.(access := lex.access(line.text).value) else kind
  {
    assert [line][1..] == [];
    if kind.Class? {
      var l := lex.access(line.text);
      assert LastLabel(lex, kind.access, [line]) == if l.Some? then l.value else kind.access;
    }
  }

  /** What a line does to a block on top of it before its braces. */
  lemma {:induction false} HeadsOnTop(lex: Lexicon, b: BlockInfo, line: Line)
    requires lex.Valid() && b.seenOpenBrace
    ensures var heads := Heads(lex, [b], line).0;
      heads != [] &&
      heads[0] == CountOne(lex, b, line).(kind := Relabelled(lex, b.kind, if |heads| == 1 then [line] else []))
  {
    var b1 := CountOne(lex, b, line);
    assert CountParentheses(lex, [b], line.text) == [b1];
    NamespacesGrow(lex, [b1], line.text, line.num);
    var (stack2, rest) := Namespaces(lex, [b1], line.text, line.num);
    var (stack3, rest') := ClassHead(lex, stack2, rest, line.num);
    LabelsOnLowest(lex, stack3, line.text, rest');
    assert |stack3| == 1 ==> rest' == line.text;
    assert stack3[0] == b1;
    OneLabel(lex, b.kind, line);
    var heads := Heads(lex, [b], line).0;
    assert heads == Access(lex, CheckBegin(lex, stack3, line.text), rest');
    assert |heads| == |stack3| && b1.kind == b.kind;
    if |heads| == 1 {
      assert heads[0] == b1.(kind := Relabelled(lex, b.kind, [line]));
    } else {
      assert heads[0] == b1;
    }
  }

  /** What a line does to the lowest block. */
  lemma {:induction false} LineOnLowest(lex: Lexicon, stack: Stack, line: Line)
    requires lex.Valid() && stack != [] && stack[0].seenOpenBrace
    requires TokensKeep(lex, Heads(lex, stack, line).0, Heads(lex, stack, line).1, line.num)
    ensures var r, b := Body(lex, stack, line), stack[0];
      && r != [] && r[0].seenOpenBrace
      && r[0] == if |stack| > 1 then b
                 else CountOne(lex, b, line).(kind := Relabelled(lex, b.kind, Unheaded(lex, stack, [line])))
    ensures |stack| > 1 ==> Unheaded(lex, stack, [line]) == []
  {
    var (heads, rest) := Heads(lex, stack, line);
    assert [line][1..] == [];
    if |stack| > 1 {
      assert stack == [stack[0]] + stack[1..];
      HeadsAreLocal(lex, [stack[0]], stack[1..], line);
    } else {
      assert stack == [stack[0]];
      HeadsOnTop(lex, stack[0], line);
    }
    BracesOnLowest(lex, heads, rest, line.num);
  }

  lemma {:induction false} CountedAs(lex: Lexicon, b: BlockInfo, kind: Kind, lines: seq<Line>)
    ensures Counted(lex, b.(kind := kind), lines) == Counted(lex, b, lines).(kind := kind)
    ensures Counted(lex, b, lines).kind == b.kind
    decreases |lines|
  {
    if lines != [] {
      CountedAs(lex, CountOne(lex, b, lines[0]), kind, lines[1..]);
    }
  }

  /**
   Lines that never close the lowest block change it only where it is on top: its
   parentheses and assembly on its own lines, its access by the labels on those of
   them that no head begins.
   */
  lemma {:induction false} LinesOnLowest(lex: Lexicon, stack: Stack, lines: seq<Line>)
    requires lex.Valid() && Keeps(lex, stack, lines) && stack[0].seenOpenBrace
    ensures var r, b := Bodies(lex, stack, lines), stack[0];
      r != [] &&
      r[0] == Counted(lex, b, Own(lex, stack, lines)).(kind := Relabelled(lex, b.kind, Unheaded(lex, stack, lines)))
    decreases |lines|
  {
    if lines != [] {
      var b, next := stack[0], Body(lex, stack, lines[0]);
      LineOnLowest(lex, stack, lines[0]);
      LinesOnLowest(lex, next, lines[1..]);
      OneLineMore(lex, b, stack, lines, next);
    }
  }

  lemma {:induction false} OneLineMore(lex: Lexicon, b: BlockInfo, stack: Stack, lines: seq<Line>, next: Stack)
    requires lex.Valid() && lines != [] && next == Body(lex, stack, lines[0]) && next != []
    requires next[0] ==
      if |stack| > 1 then b
      else CountOne(lex, b, lines[0]).(kind := Relabelled(lex, b.kind, Unheaded(lex, stack, [lines[0]])))
    requires |stack| > 1 ==> Unheaded(lex, stack, [lines[0]]) == []
    requires stack != []
    ensures Counted(lex, next[0], Own(lex, next, lines[1..])).(
              kind := Relabelled(lex, next[0].kind, Unheaded(lex, next, lines[1..]))) ==
            Counted(lex, b, Own(lex, stack, lines)).(kind := Relabelled(lex, b.kind, Unheaded(lex, stack, lines)))
  {
    var own, rest := Own(lex, next, lines[1..]), Unheaded(lex, next, lines[1..]);
    var one := Unheaded(lex, stack, [lines[0]]);
    assert [lines[0]][1..] == [] && Unheaded(lex, stack, lines) == one + rest;
    LabelsInTurn(lex, b.kind, one, rest);
    if |stack| == 1 {
      assert ([lines[0]] + own)[1..] == own;
      CountedAs(lex, CountOne(lex, b, lines[0]), next[0].kind, own);
      assert Own(lex, stack, lines) == [lines[0]] + own;
      assert next[0].kind == Relabelled(lex, b.kind, one);
    } else {
      assert Own(lex, stack, lines) == own && Relabelled(lex, b.kind, one) == b.kind;
    }
  }

  lemma {:induction false} LabelsInTurn(lex: Lexicon, kind: Kind, a: seq<Line>, b: seq<Line>)
    requires |a| <= 1
    ensures Relabelled(lex, kind, a + b) == Relabelled(lex, Relabelled(lex, kind, a), b)
  {
    if a == [] {
      assert a + b == b;
    } else {
      assert (a + b)[0] == a[0] && (a + b)[1..] == b && a[1..] == [];
      if kind.Class? {
        var l := lex.access(a[0].text);
        var access := if l.Some? then l.value else kind.access;
        assert LastLabel(lex, kind.access, a) == access;
        assert LastLabel(lex, kind.access, a + b) == LastLabel(lex, access, b);
      }
    }
  }

  // ---- Classes

  /** Opening less closing parentheses. */
  function Balance(text: string): int {
    Count(text, '(') - Count(text, ')')
  }

  function Sum(lines: seq<Line>): int {
    if lines == [] then 0 else Balance(lines[0].text) + Sum(lines[1..])
  }

  lemma {:induction false} CountedSum(lex: Lexicon, b: BlockInfo, lines: seq<Line>)
    ensures var r := Counted(lex, b, lines);
      && r.openParentheses == b.openParentheses + Sum(lines)
      && r.seenOpenBrace == b.seenOpenBrace && r.startingLine == b.startingLine
    decreases |lines|
  {
    if lines != [] {
      CountedSum(lex, CountOne(lex, b, lines[0]), lines[1..]);
    }
  }

  /**
   After any lines that do not close a class, members that span lines and nested
   classes included, it is still on the same blocks. Its access is that of the last
   label among the lines where it is on top, and its parentheses are the sum of theirs.
   */
  lemma {:induction false} MembersKeepTheirClass(lex: Lexicon, base: Stack, c: BlockInfo, lines: seq<Line>)
    requires lex.Valid() && c.kind.Class? && c.seenOpenBrace && Keeps(lex, [c], lines)
    ensures var r := Bodies(lex, base + [c], lines);
      && |r| > |base| && r[..|base|] == base
      && var c' := r[|base|];
         && c'.kind == c.kind.(access := LastLabel(lex, c.kind.access, Unheaded(lex, [c], lines)))
         && c'.openParentheses == c.openParentheses + Sum(Own(lex, [c], lines))
         && c'.seenOpenBrace && c'.startingLine == c.startingLine
  {
    BlockOnBase(lex, base, c, lines);
    CountedSum(lex, c, Own(lex, [c], lines));
  }

  lemma {:induction false} BlockOnBase(lex: Lexicon, base: Stack, b: BlockInfo, lines: seq<Line>)
    requires lex.Valid() && b.seenOpenBrace && Keeps(lex, [b], lines)
    ensures var r := Bodies(lex, base + [b], lines);
      && |r| > |base| && r[..|base|] == base
      && r[|base|] == Counted(lex, b, Own(lex, [b], lines)).(kind := Relabelled(lex, b.kind, Unheaded(lex, [b], lines)))
  {
    KeepsStays(lex, [b], lines);
    LinesAreLocal(lex, base, [b], lines);
    LinesOnLowest(lex, [b], lines);
  }

  // ---- Lines without heads, in terms of their text

  function Text(lines: seq<Line>): string {
    if lines == [] then "" else lines[0].text + Text(lines[1..])
  }

  /** The lines that begin at depth 1. */
  function OnTop(d: nat, lines: seq<Line>): seq<Line>
    decreases |lines|
  {
    if lines == [] then []
    else (if d == 1 then [lines[0]] else []) + OnTop(Depth(d, lines[0].text), lines[1..])
  }

  predicate Headless(lex: Lexicon, lines: seq<Line>) {
    forall l :: l in lines ==> lex.namespaceDecl(l.text) == None && lex.classDecl(l.text) == None
  }

  lemma {:induction false} DepthInTurn(d: nat, a: string, b: string)
    ensures Depth(d, a + b) == Depth(Depth(d, a), b)
    ensures Low(d, a + b) == Least(Low(d, a), Low(Depth(d, a), b))
    decreases |a|
  {
    if a == "" {
      assert a + b == b;
    } else {
      assert (a + b)[0] == a[0] && (a + b)[1..] == a[1..] + b;
      DepthInTurn(Move(d, a[0]), a[1..], b);
    }
  }

  lemma {:induction false} LowKeeps(lex: Lexicon, stack: Stack, line: string, num: nat)
    requires Opened(stack) && stack != []
    ensures TokensKeep(lex, stack, line, num) <==> Low(|stack|, line) > 0
    decreases |line|
  {
    var i := NextToken(line);
    SkipToToken(|stack|, line);
    if i < |line| {
      var next := ApplyToken(lex, stack, line[i], line, num);
      TokenOnOpened(lex, stack, line[i], line, num);
      if next != [] {
        LowKeeps(lex, next, line[i + 1..], num);
      }
    }
  }

  lemma {:induction false} HeadlessHeads(lex: Lexicon, stack: Stack, line: Line)
    requires lex.Valid() && Opened(stack) && stack != [] && Headless(lex, [line])
    ensures var (heads, rest) := Heads(lex, stack, line);
      |heads| == |stack| && Opened(heads) && rest == line.text
  {
    assert line in [line];
    var stack1 := CountParentheses(lex, stack, line.text);
    assert |stack1| == |stack| && Opened(stack1);
  }

  /**
   Of lines without heads the text alone tells all this: they never close the lowest
   block exactly if their braces, put together, never do, and it is on top on the
   lines that begin at depth 1.
   */
  lemma {:induction false} MembersByText(lex: Lexicon, stack: Stack, lines: seq<Line>)
    requires lex.Valid() && Opened(stack) && stack != [] && Headless(lex, lines)
    ensures Keeps(lex, stack, lines) <==> Low(|stack|, Text(lines)) > 0
    ensures Keeps(lex, stack, lines) ==>
      && |Bodies(lex, stack, lines)| == Depth(|stack|, Text(lines))
      && Own(lex, stack, lines) == OnTop(|stack|, lines) == Unheaded(lex, stack, lines)
    decreases |lines|
  {
    if lines != [] {
      var line := lines[0];
      assert line in lines && Headless(lex, [line]);
      HeadlessHeads(lex, stack, line);
      var (heads, rest) := Heads(lex, stack, line);
      BracesOnOpened(lex, heads, rest, line.num);
      LowKeeps(lex, heads, rest, line.num);
      DepthInTurn(|stack|, line.text, Text(lines[1..]));
      var next := Body(lex, stack, line);
      if next != [] {
        MembersByText(lex, next, lines[1..]);
      }
    }
  }

  // ---- Inline assembly

  /** From n open parentheses, no line brings the number to zero. */
  predicate OpenThroughout(n: int, lines: seq<Line>)
    decreases |lines|
  {
    lines == [] ||
    var m := n + Balance(lines[0].text);
    m != 0 && OpenThroughout(m, lines[1..])
  }

  lemma {:induction false} CountedInside(lex: Lexicon, b: BlockInfo, lines: seq<Line>)
    requires b.inlineAsm == InsideAsm && OpenThroughout(b.openParentheses, lines)
    ensures Counted(lex, b, lines) == b.(openParentheses := b.openParentheses + Sum(lines))
    decreases |lines|
  {
    if lines != [] {
      CountedInside(lex, CountOne(lex, b, lines[0]), lines[1..]);
    }
  }

  lemma {:induction false} CountedInTurn(lex: Lexicon, b: BlockInfo, lines: seq<Line>, more: seq<Line>)
    ensures Counted(lex, b, lines + more) == Counted(lex, Counted(lex, b, lines), more)
    decreases |lines|
  {
    if lines == [] {
      assert lines + more == more;
    } else {
      assert (lines + more)[1..] == lines[1..] + more;
      CountedInTurn(lex, CountOne(lex, b, lines[0]), lines[1..], more);
    }
  }

  /**
   Through any lines that do not close it, a block stays inside assembly while the
   parentheses of its own lines are open.
   */
  lemma {:induction false} AsmStaysInside(lex: Lexicon, base: Stack, b: BlockInfo, lines: seq<Line>)
    requires lex.Valid() && b.seenOpenBrace && Keeps(lex, [b], lines)
    requires b.inlineAsm == InsideAsm && OpenThroughout(b.openParentheses, Own(lex, [b], lines))
    ensures var r := Bodies(lex, base + [b], lines);
      && |r| > |base| && r[..|base|] == base && r[|base|].inlineAsm == InsideAsm
      && r[|base|].openParentheses == b.openParentheses + Sum(Own(lex, [b], lines))
  {
    BlockOnBase(lex, base, b, lines);
    CountedInside(lex, b, Own(lex, [b], lines));
  }

  lemma {:induction false} CountedOut(lex: Lexicon, b: BlockInfo, inside: seq<Line>, last: Line, after: seq<Line>)
    requires b.inlineAsm == InsideAsm && OpenThroughout(b.openParentheses, inside) && |after| <= 1
    requires b.openParentheses + Sum(inside) + Balance(last.text) == 0
    ensures var r := Counted(lex, b, inside + ([last] + after));
      && r.openParentheses == Sum(after)
      && r.inlineAsm == if after == [] then EndAsm
                        else if Balance(after[0].text) == 1 && lex.asm(after[0].text) then InsideAsm
                        else NoAsm
  {
    CountedInTurn(lex, b, inside, [last] + after);
    CountedInside(lex, b, inside);
    var b1 := Counted(lex, b, inside);
    var b2 := CountOne(lex, b1, last);
    assert ([last] + after)[1..] == after && b2.inlineAsm == EndAsm && b2.openParentheses == 0;
    assert Counted(lex, b1, [last] + after) == Counted(lex, b2, after);
    if after != [] {
      assert after[1..] == [] && Counted(lex, b2, after) == CountOne(lex, b2, after[0]);
    }
  }

  /**
   It leaves the assembly on exactly the own line that closes them. After its next
   own line, if there is one, it is outside, or inside another.
   */
  lemma {:induction false} AsmEndsWhenClosed(lex: Lexicon, base: Stack, b: BlockInfo, lines: seq<Line>,
                                             inside: seq<Line>, last: Line, after: seq<Line>)
    requires lex.Valid() && b.seenOpenBrace && Keeps(lex, [b], lines) && |after| <= 1
    requires Own(lex, [b], lines) == inside + ([last] + after)
    requires b.inlineAsm == InsideAsm && OpenThroughout(b.openParentheses, inside)
    requires b.openParentheses + Sum(inside) + Balance(last.text) == 0
    ensures var r := Bodies(lex, base + [b], lines);
      && |r| > |base| && r[..|base|] == base && r[|base|].openParentheses == Sum(after)
      && r[|base|].inlineAsm == if after == [] then EndAsm
                                else if Balance(after[0].text) == 1 && lex.asm(after[0].text) then InsideAsm
                                else NoAsm
  {
    BlockOnBase(lex, base, b, lines);
    CountedOut(lex, b, inside, last, after);
  }

  // ---- Branches

  /** Inside a conditional, with `depth` others open in it, no line ends it. */
  predicate Inside(lex: Lexicon, depth: nat, lines: seq<Line>)
    decreases |lines|
  {
    lines == [] ||
    match lex.directive(lines[0].text)
    case If => Inside(lex, depth + 1, lines[1..])
    case Endif => depth > 0 && Inside(lex, depth - 1, lines[1..])
    case _ => Inside(lex, depth, lines[1..])
  }

  /** How many are open in it after the lines. */
  function OpenIn(lex: Lexicon, depth: nat, lines: seq<Line>): nat
    requires Inside(lex, depth, lines)
    decreases |lines|
  {
    if lines == [] then depth
    else
      match lex.directive(lines[0].text)
      case If => OpenIn(lex, depth + 1, lines[1..])
      case Endif => OpenIn(lex, depth - 1, lines[1..])
      case _ => OpenIn(lex, depth, lines[1..])
  }

  lemma {:induction false} CheckpointKept(s: State, d: Directive, base: nat, depth: nat)
    requires |s.pp| == base + 1 + depth && (d == Endif ==> depth > 0)
    ensures var pp := Preprocess(s, d).pp;
      && |pp| == base + 1 + (if d == If then depth + 1 else if d == Endif then depth - 1 else depth)
      && pp[base].stackBeforeIf == s.pp[base].stackBeforeIf && pp[..base] == s.pp[..base]
  {
  }

  lemma {:induction false} CheckpointStays(lex: Lexicon, s: State, base: nat, depth: nat, lines: seq<Line>)
    requires lex.Valid() && Inside(lex, depth, lines) && |s.pp| == base + 1 + depth
    ensures var r := Run(lex, s, lines);
      && |r.pp| == base + 1 + OpenIn(lex, depth, lines)
      && r.pp[base].stackBeforeIf == s.pp[base].stackBeforeIf && r.pp[..base] == s.pp[..base]
    decreases |lines|
  {
    if lines != [] {
      var d := lex.directive(lines[0].text);
      var next := Step(lex, s, lines[0]);
      var depth' := if d == If then depth + 1 else if d == Endif then depth - 1 else depth;
      CheckpointKept(s, d, base, depth);
      assert next.pp == Preprocess(s, d).pp;
      CheckpointStays(lex, next, base, depth', lines[1..]);
    }
  }

  lemma {:induction false} RunInTurn(lex: Lexicon, s: State, a: seq<Line>, b: seq<Line>)
    requires lex.Valid()
    ensures Run(lex, s, a + b) == Run(lex, Run(lex, s, a), b)
    decreases |a|
  {
    if a == [] {
      assert a + b == b;
    } else {
      assert (a + b)[0] == a[0] && (a + b)[1..] == a[1..] + b;
      RunInTurn(lex, Step(lex, s, a[0]), a[1..], b);
    }
  }

  /**
   Every branch of a conditional starts from the blocks in front of its #if: after
   any lines inside it, other branches and other conditionals included, an #else or
   #elif of its own leaves the blocks that this line alone makes of those.
   */
  lemma {:induction false} BranchesStartAnew(lex: Lexicon, s: State, first: Line, lines: seq<Line>, branch: Line)
    requires lex.Valid() && lex.directive(first.text) == If && lex.directive(branch.text) == Else
    requires Inside(lex, 0, lines) && OpenIn(lex, 0, lines) == 0
    ensures var r := Run(lex, s, [first] + lines + [branch]);
      r.stack == Body(lex, s.stack, branch) && |r.pp| == |s.pp| + 1 && r.pp[..|s.pp|] == s.pp
  {
    var begun := Step(lex, s, first);
    assert begun.pp == s.pp + [PreprocessorInfo(s.stack, [], false)];
    CheckpointStays(lex, begun, |s.pp|, 0, lines);
    RunInTurn(lex, s, [first], lines);
    RunInTurn(lex, s, [first] + lines, [branch]);
    assert [first][1..] == [] && [branch][1..] == [];
    assert Run(lex, s, [first]) == begun;
  }
}
