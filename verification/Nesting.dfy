/**
 cpplint's NestingState: a stack of open blocks, updated line by line, and a
 second stack of checkpoints of the first one, taken at #if and #else.

 What the regular expressions of the source say about a line is given by an
 arbitrary Lexicon, so everything proved here holds whatever they match.
 Reporting of style errors is not part of this model.
 */
module Nesting {
  import opened Options

  datatype Asm = NoAsm | InsideAsm | EndAsm | BlockAsm

  datatype Kind =
    | Plain
    | ExternC
    | Namespace(name: string)
    | Class(name: string, access: string, isDerived: bool)

  datatype BlockInfo =
    BlockInfo(kind: Kind, startingLine: nat, seenOpenBrace: bool, openParentheses: int, inlineAsm: Asm)

  datatype PreprocessorInfo = PreprocessorInfo(
    stackBeforeIf: seq<BlockInfo>,
    stackBeforeElse: seq<BlockInfo>,
    seenElse: bool)

  datatype Directive = If | Else | Endif | Other

  datatype Line = Line(num: nat, text: string)

  datatype ClassDecl = ClassDecl(name: string, isStruct: bool, endOfHead: nat, rest: string)

  /** What the patterns match; `inTemplate` is InTemplateArgumentList at a line and column. */
  datatype Lexicon = Lexicon(
    directive: string -> Directive,
    asm: string -> bool,
    externC: string -> bool,
    bareColon: string -> bool,
    namespaceDecl: string -> Option<(string, string)>,
    classDecl: string -> Option<ClassDecl>,
    access: string -> Option<string>,
    inTemplate: (nat, nat) -> bool)
  {
    /** A namespace head is at least the word "namespace", so what follows it is shorter. */
    ghost predicate Valid() {
      forall s: string :: namespaceDecl(s).Some? ==> |namespaceDecl(s).value.1| < |s|
    }
  }

  type Stack = seq<BlockInfo>

  datatype State = State(stack: Stack, pp: seq<PreprocessorInfo>)

  function Top(stack: Stack): BlockInfo
    requires stack != []
  {
    stack[|stack| - 1]
  }

  function Pop<T>(s: seq<T>): seq<T>
    requires s != []
  {
    s[..|s| - 1]
  }

  function SetTop(stack: Stack, b: BlockInfo): Stack
    requires stack != []
  {
    stack[|stack| - 1 := b]
  }

  predicate SeenOpenBrace(stack: Stack) {
    stack == [] || Top(stack).seenOpenBrace
  }

  // ---- The preprocessor stack

  function Preprocess(s: State, d: Directive): State {
    match d
    case If => s.(pp := s.pp + [PreprocessorInfo(s.stack, [], false)])
    case Else =>
      if s.pp == [] then s
      else
        var top := s.pp[|s.pp| - 1];
        var marked := if top.seenElse then top else top.(seenElse := true, stackBeforeElse := s.stack);
        State(top.stackBeforeIf, s.pp[|s.pp| - 1 := marked])
    case Endif =>
      if s.pp == [] then s
      else
        var top := s.pp[|s.pp| - 1];
        State(if top.seenElse then top.stackBeforeElse else s.stack, Pop(s.pp))
    case Other => s
  }

  // ---- The rest of a line

  function Count(s: string, c: char): nat {
    if s == "" then 0 else (if s[0] == c then 1 else 0) + Count(s[1..], c)
  }

  function CountParentheses(lex: Lexicon, stack: Stack, text: string): Stack {
    if stack == [] then stack
    else
      var change := Count(text, '(') - Count(text, ')');
      var b := Top(stack).(openParentheses := Top(stack).openParentheses + change);
      SetTop(stack,
        if b.inlineAsm == NoAsm || b.inlineAsm == EndAsm then
          b.(inlineAsm := if change != 0 && b.openParentheses == 1 && lex.asm(text) then InsideAsm else NoAsm)
        else if b.inlineAsm == InsideAsm && b.openParentheses == 0 then
          b.(inlineAsm := EndAsm)
        else
          b)
  }

  function Find(s: string, c: char): (i: nat)
    ensures i <= |s|
  {
    if s == "" || s[0] == c then 0 else 1 + Find(s[1..], c)
  }

  /** Namespace heads at the start of the line: the stack with them, and what is left of the line. */
  function Namespaces(lex: Lexicon, stack: Stack, line: string, num: nat): (Stack, string)
    requires lex.Valid()
    decreases |line|
  {
    match lex.namespaceDecl(line)
    case None => (stack, line)
    case Some((name, rest)) =>
      var brace := Find(rest, '{');
      var b := BlockInfo(Namespace(name), num, brace < |rest|, 0, NoAsm);
      Namespaces(lex, stack + [b], if brace < |rest| then rest[brace + 1..] else rest, num)
  }

  function ClassHead(lex: Lexicon, stack: Stack, line: string, num: nat): (Stack, string) {
    match lex.classDecl(line)
    case Some(decl) =>
      if (stack == [] || Top(stack).openParentheses == 0) && !lex.inTemplate(num, decl.endOfHead) then
        var access := if decl.isStruct then "public" else "private";
        (stack + [BlockInfo(Class(decl.name, access, false), num, false, 0, NoAsm)], decl.rest)
      else
        (stack, line)
    case None => (stack, line)
  }

  /** The head of a class not yet opened is checked for a base class. */
  function CheckBegin(lex: Lexicon, stack: Stack, text: string): Stack {
    if !SeenOpenBrace(stack) && Top(stack).kind.Class? && lex.bareColon(text)
    then SetTop(stack, Top(stack).(kind := Top(stack).kind.(isDerived := true)))
    else stack
  }

  function Access(lex: Lexicon, stack: Stack, line: string): Stack {
    if stack != [] && Top(stack).kind.Class? && lex.access(line).Some?
    then SetTop(stack, Top(stack).(kind := Top(stack).kind.(access := lex.access(line).value)))
    else stack
  }

  predicate IsToken(c: char) {
    c == '{' || c == ';' || c == ')' || c == '}'
  }

  function NextToken(s: string): (i: nat)
    ensures i <= |s| && (i < |s| ==> IsToken(s[i]))
  {
    if s == "" || IsToken(s[0]) then 0 else 1 + NextToken(s[1..])
  }

  function ApplyToken(lex: Lexicon, stack: Stack, token: char, line: string, num: nat): Stack {
    if token == '{' then
      if !SeenOpenBrace(stack) then SetTop(stack, Top(stack).(seenOpenBrace := true))
      else if lex.externC(line) then stack + [BlockInfo(ExternC, num, true, 0, NoAsm)]
      else stack + [BlockInfo(Plain, num, true, 0, if lex.asm(line) then BlockAsm else NoAsm)]
    else if token == '}' then
      if stack == [] then stack else Pop(stack)
    else
      if SeenOpenBrace(stack) then stack else Pop(stack)
  }

  function Braces(lex: Lexicon, stack: Stack, line: string, num: nat): Stack
    decreases |line|
  {
    var i := NextToken(line);
    if i == |line| then stack
    else Braces(lex, ApplyToken(lex, stack, line[i], line, num), line[i + 1..], num)
  }

  /** What a line does to the stack of blocks before its braces are read, and what is left of the line. */
  function Heads(lex: Lexicon, stack0: Stack, line: Line): (Stack, string)
    requires lex.Valid()
  {
    var stack1 := CountParentheses(lex, stack0, line.text);
    var (stack2, rest) := Namespaces(lex, stack1, line.text, line.num);
    var (stack3, rest') := ClassHead(lex, stack2, rest, line.num);
    var stack4 := CheckBegin(lex, stack3, line.text);
    (Access(lex, stack4, rest'), rest')
  }

  /** Everything a line does to the stack of blocks apart from its directive. */
  function Body(lex: Lexicon, stack: Stack, line: Line): Stack
    requires lex.Valid()
  {
    var (heads, rest) := Heads(lex, stack, line);
    Braces(lex, heads, rest, line.num)
  }

  function Step(lex: Lexicon, s: State, line: Line): State
    requires lex.Valid()
  {
    var s' := Preprocess(s, lex.directive(line.text));
    s'.(stack := Body(lex, s'.stack, line))
  }

  function Run(lex: Lexicon, s: State, lines: seq<Line>): State
    requires lex.Valid()
    decreases |lines|
  {
    if lines == [] then s else Run(lex, Step(lex, s, lines[0]), lines[1..])
  }

  class NestingState {
    const lex: Lexicon
    var stack: Stack
    var ppStack: seq<PreprocessorInfo>
    var previousStackTop: Option<BlockInfo>

    function Value(): State
      reads this
    {
      State(stack, ppStack)
    }

    constructor (lex: Lexicon)
      ensures this.lex == lex && Value() == State([], [])
    {
      this.lex := lex;
      stack, ppStack, previousStackTop := [], [], None;
    }

    method UpdatePreprocessor(line: string)
      modifies this`stack, this`ppStack
      ensures Value() == Preprocess(old(Value()), lex.directive(line))
    {
      match lex.directive(line)
      case If =>
        ppStack := ppStack + [PreprocessorInfo(stack, [], false)];
      case Else =>
        if ppStack != [] {
          var last := |ppStack| - 1;
          if !ppStack[last].seenElse {
            ppStack := ppStack[last := ppStack[last].(seenElse := true)];
            ppStack := ppStack[last := ppStack[last].(stackBeforeElse := stack)];
          }
          stack := ppStack[last].stackBeforeIf;
        }
      case Endif =>
        if ppStack != [] {
          var last := |ppStack| - 1;
          if ppStack[last].seenElse {
            stack := ppStack[last].stackBeforeElse;
          }
          ppStack := ppStack[..last];
        }
      case Other =>
    }

    method ConsumeToken(token: char, line: string, num: nat)
      modifies this`stack
      ensures stack == ApplyToken(lex, old(stack), token, line, num)
    {
      if token == '{' {
        if !SeenOpenBrace(stack) {
          stack := SetTop(stack, Top(stack).(seenOpenBrace := true));
        } else if lex.externC(line) {
          stack := stack + [BlockInfo(ExternC, num, true, 0, NoAsm)];
        } else {
          stack := stack + [BlockInfo(Plain, num, true, 0, NoAsm)];
          if lex.asm(line) {
            stack := SetTop(stack, Top(stack).(inlineAsm := BlockAsm));
          }
        }
      } else if token == '}' {
        if stack != [] {
          stack := Pop(stack);
        }
      } else if !SeenOpenBrace(stack) {
        stack := Pop(stack);
      }
    }

    /** Consumes the braces, semicolons and closing parentheses of the rest of a line. */
    method ConsumeBraces(line0: string, num: nat)
      modifies this`stack
      ensures stack == Braces(lex, old(stack), line0, num)
    {
      var line := line0;
      var i := NextToken(line);
      while i < |line|
        invariant i == NextToken(line)
        invariant Braces(lex, stack, line, num) == Braces(lex, old(stack), line0, num)
        decreases |line|
      {
        ConsumeToken(line[i], line, num);
        line := line[i + 1..];
        i := NextToken(line);
      }
    }

    method ConsumeNamespaces(line0: string, num: nat) returns (line: string)
      requires lex.Valid()
      modifies this`stack
      ensures (stack, line) == Namespaces(lex, old(stack), line0, num)
    {
      line := line0;
      while lex.namespaceDecl(line).Some?
        invariant Namespaces(lex, stack, line, num) == Namespaces(lex, old(stack), line0, num)
        decreases |line|
      {
        var (name, rest) := lex.namespaceDecl(line).value;
        ghost var before := stack;
        stack := stack + [BlockInfo(Namespace(name), num, false, 0, NoAsm)];
        line := rest;
        var brace := Find(line, '{');
        if brace < |line| {
          stack := SetTop(stack, Top(stack).(seenOpenBrace := true));
          line := line[brace + 1..];
        }
        assert stack == before + [BlockInfo(Namespace(name), num, brace < |rest|, 0, NoAsm)];
      }
    }

    /** Counts parentheses for the innermost block, and follows inline assembly. */
    method UpdateParentheses(text: string)
      modifies this`stack
      ensures stack == CountParentheses(lex, old(stack), text)
    {
      if stack != [] {
        var inner := Top(stack);
        var change := Count(text, '(') - Count(text, ')');
        inner := inner.(openParentheses := inner.openParentheses + change);
        if inner.inlineAsm == NoAsm || inner.inlineAsm == EndAsm {
          if change != 0 && inner.openParentheses == 1 && lex.asm(text) {
            inner := inner.(inlineAsm := InsideAsm);
          } else {
            inner := inner.(inlineAsm := NoAsm);
          }
        } else if inner.inlineAsm == InsideAsm && inner.openParentheses == 0 {
          inner := inner.(inlineAsm := EndAsm);
        }
        stack := SetTop(stack, inner);
      }
    }

    method ConsumeClassHead(line: string, num: nat) returns (rest: string)
      modifies this`stack
      ensures (stack, rest) == ClassHead(lex, old(stack), line, num)
    {
      rest := line;
      var decl := lex.classDecl(line);
      if decl.Some? && (stack == [] || Top(stack).openParentheses == 0) {
        if !lex.inTemplate(num, decl.value.endOfHead) {
          var access := if decl.value.isStruct then "public" else "private";
          stack := stack + [BlockInfo(Class(decl.value.name, access, false), num, false, 0, NoAsm)];
          rest := decl.value.rest;
        }
      }
    }

    method UpdateAccess(line: string)
      modifies this`stack
      ensures stack == Access(lex, old(stack), line)
    {
      if stack != [] && Top(stack).kind.Class? {
        var access := lex.access(line);
        if access.Some? {
          stack := SetTop(stack, Top(stack).(kind := Top(stack).kind.(access := access.value)));
        }
      }
    }

    method Update(line: Line)
      requires lex.Valid()
      modifies this
      ensures Value() == Step(lex, old(Value()), line)
      ensures previousStackTop == if old(stack) == [] then None else Some(Top(old(stack)))
    {
      previousStackTop := if stack != [] then Some(Top(stack)) else None;
      UpdatePreprocessor(line.text);
      UpdateParentheses(line.text);
      var rest := ConsumeNamespaces(line.text, line.num);
      rest := ConsumeClassHead(rest, line.num);
      stack := CheckBegin(lex, stack, line.text);
      UpdateAccess(rest);
      ConsumeBraces(rest, line.num);
    }
  }

  // ---- Erasing the branches that are not taken

  /** For each open conditional, whether an #else or #elif of it has been passed. */
  function Advance(open: seq<bool>, d: Directive): seq<bool> {
    match d
    case If => open + [false]
    case Else => if open == [] then open else open[|open| - 1 := true]
    case Endif => if open == [] then open else Pop(open)
    case Other => open
  }

  function AdvanceAll(lex: Lexicon, open: seq<bool>, lines: seq<Line>): seq<bool>
    decreases |lines|
  {
    if lines == [] then open
    else AdvanceAll(lex, Advance(open, lex.directive(lines[0].text)), lines[1..])
  }

  /** The outermost open conditional in an #else branch, or the number of open conditionals. */
  function FirstSeen(open: seq<bool>): (j: nat)
    ensures j <= |open| && (j < |open| ==> open[j])
    ensures forall i :: 0 <= i < j ==> !open[i]
  {
    if open == [] || open[0] then 0 else 1 + FirstSeen(open[1..])
  }

  predicate InElse(open: seq<bool>) {
    FirstSeen(open) < |open|
  }

  /**
   The lines without those from an #else or #elif up to, and not including, the
   #endif of the same conditional.
   */
  function Erase(lex: Lexicon, open: seq<bool>, lines: seq<Line>): seq<Line>
    decreases |lines|
  {
    if lines == [] then []
    else
      var open' := Advance(open, lex.directive(lines[0].text));
      var rest := Erase(lex, open', lines[1..]);
      if InElse(open') then rest else [lines[0]] + rest
  }

  /** No line closes a conditional that these lines did not open, nor names an #else outside of one. */
  predicate Enclosed(lex: Lexicon, depth: nat, lines: seq<Line>)
    decreases |lines|
  {
    lines == [] ||
    match lex.directive(lines[0].text)
    case If => Enclosed(lex, depth + 1, lines[1..])
    case Else => depth > 0 && Enclosed(lex, depth, lines[1..])
    case Endif => depth > 0 && Enclosed(lex, depth - 1, lines[1..])
    case Other => Enclosed(lex, depth, lines[1..])
  }

  predicate WellNested(lex: Lexicon, lines: seq<Line>) {
    Enclosed(lex, 0, lines) && AdvanceAll(lex, [], lines) == []
  }

  /** How the state on all lines and the state on the lines kept correspond. */
  ghost predicate Corresponds(full: State, kept: State, base: seq<PreprocessorInfo>, open: seq<bool>) {
    && |full.pp| == |base| + |open|
    && full.pp[..|base|] == base
    && (forall i :: 0 <= i < |open| ==> full.pp[|base| + i].seenElse == open[i])
    && (forall i :: 0 <= i < |open| && !open[i] ==> full.pp[|base| + i].stackBeforeElse == [])
    && if !InElse(open) then
         full == kept
       else
         var j := |base| + FirstSeen(open);
         && kept.stack == full.pp[j].stackBeforeElse
         && kept.pp == full.pp[..j] + [PreprocessorInfo(full.pp[j].stackBeforeIf, [], false)]
  }

  lemma {:induction false} FirstElse(full: State, base: seq<PreprocessorInfo>, open: seq<bool>)
    requires Corresponds(full, full, base, open) && open != [] && !InElse(open)
    ensures Corresponds(Preprocess(full, Else), full, base, Advance(open, Else))
  {
    var open', full' := Advance(open, Else), Preprocess(full, Else);
    var k := |open| - 1;
    assert !open[k] && full.pp[|base| + k].stackBeforeElse == [] && !full.pp[|base| + k].seenElse;
    assert open'[k] && forall i :: 0 <= i < k ==> open'[i] == open[i];
    assert FirstSeen(open') == k;
    assert full'.pp[..|base| + k] == full.pp[..|base| + k];
  }

  lemma {:induction false} LaterElse(full: State, kept: State, base: seq<PreprocessorInfo>, open: seq<bool>)
    requires Corresponds(full, kept, base, open) && InElse(open)
    ensures Corresponds(Preprocess(full, Else), kept, base, Advance(open, Else))
  {
    var open', full' := Advance(open, Else), Preprocess(full, Else);
    var j, k := FirstSeen(open), |open| - 1;
    assert open'[j] && FirstSeen(open') == j;
    assert full'.pp[..|base| + j] == full.pp[..|base| + j];
    assert full'.pp[..|base|] == base;
  }

  lemma {:induction false} InnerEndif(full: State, kept: State, base: seq<PreprocessorInfo>, open: seq<bool>)
    requires Corresponds(full, kept, base, open) && FirstSeen(open) < |open| - 1
    ensures InElse(Pop(open)) && Corresponds(Preprocess(full, Endif), kept, base, Pop(open))
  {
    var full' := Preprocess(full, Endif);
    var j := FirstSeen(open);
    assert Pop(open)[j] && FirstSeen(Pop(open)) == j;
    assert full'.pp[..|base| + j] == full.pp[..|base| + j];
    assert full'.pp[..|base|] == base;
  }

  lemma {:induction false} OuterEndif(full: State, kept: State, base: seq<PreprocessorInfo>, open: seq<bool>)
    requires Corresponds(full, kept, base, open) && open != [] && FirstSeen(open) >= |open| - 1
    ensures !InElse(Pop(open)) && Corresponds(Preprocess(full, Endif), Preprocess(kept, Endif), base, Pop(open))
  {
    var full' := Preprocess(full, Endif);
    assert full'.pp[..|base|] == base;
    assert full' == Preprocess(kept, Endif);
  }

  lemma {:induction false} NewIf(full: State, kept: State, base: seq<PreprocessorInfo>, open: seq<bool>)
    requires Corresponds(full, kept, base, open)
    ensures InElse(Advance(open, If)) == InElse(open)
    ensures Corresponds(Preprocess(full, If), if InElse(open) then kept else Preprocess(kept, If), base,
                        Advance(open, If))
  {
    var open', full' := Advance(open, If), Preprocess(full, If);
    var j := FirstSeen(open);
    assert full'.pp[..|base|] == base;
    if InElse(open) {
      assert open'[j] && FirstSeen(open') == j;
      assert full'.pp[..|base| + j] == full.pp[..|base| + j];
    }
  }

  lemma {:induction false} CorrespondsDirective(full: State, kept: State, base: seq<PreprocessorInfo>,
                                                open: seq<bool>, d: Directive)
    requires Corresponds(full, kept, base, open)
    requires base == [] || open != [] || d == If || d == Other
    ensures var open' := Advance(open, d);
            Corresponds(Preprocess(full, d), if InElse(open') then kept else Preprocess(kept, d), base, open')
  {
    match d
    case If => NewIf(full, kept, base, open);
    case Else =>
      if InElse(open) {
        LaterElse(full, kept, base, open);
        assert Advance(open, Else)[FirstSeen(open)];
      } else if open != [] {
        FirstElse(full, base, open);
        assert Advance(open, Else)[|open| - 1];
      }
    case Endif =>
      if FirstSeen(open) < |open| - 1 {
        InnerEndif(full, kept, base, open);
      } else if open != [] {
        OuterEndif(full, kept, base, open);
      }
    case Other =>
  }

  /** What the rest of a line does to the blocks respects the correspondence. */
  lemma {:induction false} CorrespondsBody(full: State, kept: State, base: seq<PreprocessorInfo>, open: seq<bool>,
                                           stack: Stack)
    requires Corresponds(full, kept, base, open)
    ensures Corresponds(full.(stack := stack), if InElse(open) then kept else kept.(stack := stack), base, open)
  {
  }

  lemma {:induction false} CorrespondsStep(lex: Lexicon, full: State, kept: State, base: seq<PreprocessorInfo>,
                                           open: seq<bool>, line: Line)
    requires lex.Valid()
    requires Corresponds(full, kept, base, open)
    requires base == [] || open != [] || lex.directive(line.text) == If || lex.directive(line.text) == Other
    ensures var open' := Advance(open, lex.directive(line.text));
            Corresponds(Step(lex, full, line), if InElse(open') then kept else Step(lex, kept, line), base, open')
  {
    var d := lex.directive(line.text);
    var open', full' := Advance(open, d), Preprocess(full, d);
    var kept' := if InElse(open') then kept else Preprocess(kept, d);
    CorrespondsDirective(full, kept, base, open, d);
    CorrespondsBody(full', kept', base, open', Body(lex, full'.stack, line));
  }

  lemma {:induction false} Simulation(lex: Lexicon, full: State, kept: State, base: seq<PreprocessorInfo>,
                                      open: seq<bool>, lines: seq<Line>)
    requires lex.Valid()
    requires Corresponds(full, kept, base, open)
    requires base == [] || Enclosed(lex, |open|, lines)
    ensures Corresponds(Run(lex, full, lines), Run(lex, kept, Erase(lex, open, lines)), base,
                        AdvanceAll(lex, open, lines))
    decreases |lines|
  {
    if lines != [] {
      var open' := Advance(open, lex.directive(lines[0].text));
      CorrespondsStep(lex, full, kept, base, open, lines[0]);
      var kept' := if InElse(open') then kept else Step(lex, kept, lines[0]);
      Simulation(lex, Step(lex, full, lines[0]), kept', base, open', lines[1..]);
      var rest := Erase(lex, open', lines[1..]);
      assert ([lines[0]] + rest)[1..] == rest;
    }
  }

  /** What is left after erasing has no #else or #elif, and is still well-nested. */
  lemma {:induction false} ErasedHasNoElse(lex: Lexicon, open: seq<bool>, kept: nat, lines: seq<Line>)
    requires Enclosed(lex, |open|, lines) && kept == FirstSeen(open) + (if InElse(open) then 1 else 0)
    ensures forall l :: l in Erase(lex, open, lines) ==> lex.directive(l.text) != Else
    ensures Enclosed(lex, kept, Erase(lex, open, lines))
    decreases |lines|
  {
    if lines != [] {
      var d := lex.directive(lines[0].text);
      var open' := Advance(open, d);
      var kept' := FirstSeen(open') + (if InElse(open') then 1 else 0);
      ErasedHasNoElse(lex, open', kept', lines[1..]);
      var rest := Erase(lex, open', lines[1..]);
      assert ([lines[0]] + rest)[1..] == rest;
      AdvanceFirstSeen(open, d);
    }
  }

  /** How the number of conditionals open among the kept lines moves. */
  lemma {:induction false} AdvanceFirstSeen(open: seq<bool>, d: Directive)
    requires open != [] || d == If || d == Other
    ensures var open' := Advance(open, d);
            var kept := FirstSeen(open) + (if InElse(open) then 1 else 0);
            var kept' := FirstSeen(open') + (if InElse(open') then 1 else 0);
            if InElse(open') then kept' == kept
            else d != Else && kept' == if d == If then kept + 1 else if d == Endif then kept - 1 else kept
  {
    var open', j := Advance(open, d), FirstSeen(open);
    if InElse(open) && j < |open'| {
      assert open'[j] && FirstSeen(open') == j;
    } else if d == Else {
      assert open'[|open| - 1] && forall i :: 0 <= i < |open| - 1 ==> open'[i] == open[i];
      assert FirstSeen(open') == |open| - 1;
    }
  }

  /**
   On well-nested lines, from any state, the branches after the first #else or
   #elif of each conditional leave no trace: erasing them gives the same stack of
   blocks, and the stack of checkpoints is what it was at the start.
   */
  lemma {:induction false} ErasureOnWellNested(lex: Lexicon, s: State, lines: seq<Line>)
    requires lex.Valid() && WellNested(lex, lines)
    ensures Run(lex, s, lines) == Run(lex, s, Erase(lex, [], lines))
    ensures Run(lex, s, lines).pp == s.pp
    ensures forall l :: l in Erase(lex, [], lines) ==> lex.directive(l.text) != Else
  {
    Simulation(lex, s, s, s.pp, [], lines);
    ErasedHasNoElse(lex, [], 0, lines);
  }

  /**
   On any lines at all, stray directives included, the same holds from a fresh
   state exactly when the end is not inside an #else branch.
   */
  lemma {:induction false} ErasureOnAnyLines(lex: Lexicon, stack: Stack, lines: seq<Line>)
    requires lex.Valid()
    ensures Run(lex, State(stack, []), lines) == Run(lex, State(stack, []), Erase(lex, [], lines)) <==>
            !InElse(AdvanceAll(lex, [], lines))
  {
    Simulation(lex, State(stack, []), State(stack, []), [], [], lines);
  }

  /** Two lines that end inside an #else branch. */
  lemma {:induction false} OpenElseLeavesATrace(lex: Lexicon, stack: Stack)
    requires lex.Valid() && lex.directive("#if 0") == If && lex.directive("#else") == Else
    ensures var lines := [Line(0, "#if 0"), Line(1, "#else")];
      Run(lex, State(stack, []), lines) != Run(lex, State(stack, []), Erase(lex, [], lines))
  {
    var lines := [Line(0, "#if 0"), Line(1, "#else")];
    assert lines[1..] == [lines[1]] && lines[1..][1..] == [];
    assert Advance(Advance([], If), Else) == [true];
    assert AdvanceAll(lex, [], lines) == [true];
    ErasureOnAnyLines(lex, stack, lines);
  }
}
