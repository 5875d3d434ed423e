/**
 What the heads of a file make of it: which block a class, a namespace or a brace
 opens, from the text of its lines.
 */
module NestingHeads {
  import opened Options
  import opened Nesting
  import opened NestingTheorems

  /** No brace, semicolon or closing parenthesis. */
  predicate Quiet(s: string) {
    forall i :: 0 <= i < |s| ==> s[i] !in {'{', ';', ')', '}'}
  }

  lemma {:induction false} QuietToken(a: string, c: char, b: string)
    requires Quiet(a) && c in {'{', ';', ')', '}'}
    ensures NextToken(a + ([c] + b)) == |a| && (a + ([c] + b))[|a| + 1..] == b
    decreases |a|
  {
    if a != "" {
      assert a[0] !in {'{', ';', ')', '}'};
      assert (a + ([c] + b))[1..] == a[1..] + ([c] + b);
      QuietToken(a[1..], c, b);
    }
  }

  lemma {:induction false} QuietIsQuiet(a: string)
    requires Quiet(a)
    ensures NextToken(a) == |a|
    decreases |a|
  {
    if a != "" {
      assert a[0] !in {'{', ';', ')', '}'};
      QuietIsQuiet(a[1..]);
    }
  }

  /**
   A head that waits on top of any blocks is opened by a brace and taken away by a
   semicolon, a closing parenthesis or a closing brace; nothing else touches it.
   */
  lemma {:induction false} HeadByText(lex: Lexicon, base: Stack, head: BlockInfo, a: string, c: char, b: string,
                                      num: nat)
    requires !head.seenOpenBrace && Quiet(a)
    ensures Braces(lex, base + [head], a, num) == base + [head]
    ensures c == '{' ==>
      Braces(lex, base + [head], a + ([c] + b), num) == Braces(lex, base + [head.(seenOpenBrace := true)], b, num)
    ensures c == ';' || c == ')' || c == '}' ==>
      Braces(lex, base + [head], a + ([c] + b), num) == Braces(lex, base, b, num)
  {
    QuietIsQuiet(a);
    if c in {'{', ';', ')', '}'} {
      var line := a + ([c] + b);
      QuietToken(a, c, b);
      TokenOnHead(lex, base, head, c, line, num);
      FirstToken(lex, base + [head], line, num, Under(base, head, c));
    }
  }

  // ---- Lines without heads

  /**
   A line that begins no namespace, and no class either: none is named, parentheses
   are open, or it is a template argument.
   */
  predicate Plainly(lex: Lexicon, stack: Stack, line: Line) {
    && lex.namespaceDecl(line.text) == None
    && match lex.classDecl(line.text)
       case None => true
       case Some(decl) =>
         || (stack != [] && Top(stack).openParentheses + Balance(line.text) != 0)
         || lex.inTemplate(line.num, decl.endOfHead)
  }

  /** The blocks `r` stand on those of `base`, of which the top has the parentheses of a line counted. */
  predicate Around(base: Stack, r: Stack, line: Line) {
    && |base| <= |r|
    && (forall i :: 0 <= i < |base| - 1 ==> r[i] == base[i])
    && (base != [] ==>
          var b, c := Top(base), r[|base| - 1];
          c == b.(openParentheses := b.openParentheses + Balance(line.text), inlineAsm := c.inlineAsm))
  }

  lemma {:induction false} CountedAround(lex: Lexicon, base: Stack, more: Stack, line: Line)
    ensures Around(base, CountParentheses(lex, base, line.text) + more, line)
    ensures |CountParentheses(lex, base, line.text)| == |base|
    ensures Opened(base) ==> Opened(CountParentheses(lex, base, line.text))
  {
  }

  lemma {:induction false} PlainHeads(lex: Lexicon, stack: Stack, line: Line)
    requires lex.Valid() && Opened(stack) && Plainly(lex, stack, line)
    ensures var (heads, rest) := Heads(lex, stack, line);
      |heads| == |stack| && Opened(heads) && rest == line.text
  {
    CountedAround(lex, stack, [], line);
  }

  /** The tokens of `a` are read first. */
  lemma {:induction false} BracesInTurn(lex: Lexicon, stack: Stack, a: string, b: string, num: nat) returns (mid: Stack)
    requires Opened(stack) && (a == "" || a[|a| - 1] in {'{', ';', ')', '}'})
    ensures Opened(mid) && |mid| == Depth(|stack|, a)
    ensures Braces(lex, stack, a + b, num) == Braces(lex, mid, b, num)
    decreases |a|
  {
    if a == "" {
      assert a + b == b;
      return stack;
    }
    var i := NextToken(a);
    LastIsToken(a);
    SkipToToken(|stack|, a);
    var next := ApplyToken(lex, stack, a[i], a + b, num);
    TokenOnOpened(lex, stack, a[i], a + b, num);
    FirstOfBoth(lex, stack, a, b, num);
    mid := BracesInTurn(lex, next, a[i + 1..], b, num);
  }

  lemma {:induction false} FirstOfBoth(lex: Lexicon, stack: Stack, a: string, b: string, num: nat)
    requires NextToken(a) < |a|
    ensures var i := NextToken(a);
      Braces(lex, stack, a + b, num) == Braces(lex, ApplyToken(lex, stack, a[i], a + b, num), a[i + 1..] + b, num)
  {
    var i := NextToken(a);
    TokenInFront(a, b);
    FirstToken(lex, stack, a + b, num, ApplyToken(lex, stack, a[i], a + b, num));
    assert (a + b)[i + 1..] == a[i + 1..] + b;
  }

  lemma {:induction false} LastIsToken(a: string)
    requires a != "" && a[|a| - 1] in {'{', ';', ')', '}'}
    ensures NextToken(a) < |a|
    decreases |a|
  {
    if !IsToken(a[0]) {
      LastIsToken(a[1..]);
    }
  }

  lemma {:induction false} TokenInFront(a: string, b: string)
    requires NextToken(a) < |a|
    ensures NextToken(a + b) == NextToken(a)
    decreases |a|
  {
    if !IsToken(a[0]) {
      assert (a + b)[1..] == a[1..] + b;
      TokenInFront(a[1..], b);
    }
  }

  /**
   On open blocks a brace opens a block of its line: that of an extern "C" if the
   text behind the token before it says so, else a plain one, which holds assembly
   if that text says so. The block is there after the line if its braces leave it so.
   */
  lemma {:induction false} BraceOpens(lex: Lexicon, stack: Stack, num: nat, a: string, b: string, c: string)
    requires lex.Valid() && Opened(stack) && Plainly(lex, stack, Line(num, a + (b + ("{" + c))))
    requires (a == "" || a[|a| - 1] in {'{', ';', ')', '}'}) && Quiet(b)
    requires Low(Depth(|stack|, a) + 1, c) > Depth(|stack|, a)
    ensures var r, d, rest := Body(lex, stack, Line(num, a + (b + ("{" + c)))), Depth(|stack|, a), b + ("{" + c);
      d < |r| && r[d] == if lex.externC(rest) then BlockInfo(ExternC, num, true, 0, NoAsm)
                         else BlockInfo(Plain, num, true, 0, if lex.asm(rest) then BlockAsm else NoAsm)
  {
    var line, rest := Line(num, a + (b + ("{" + c))), b + ("{" + c);
    PlainHeads(lex, stack, line);
    var heads := Heads(lex, stack, line).0;
    var mid := BracesInTurn(lex, heads, a, rest, num);
    QuietToken(b, '{', c);
    var next := ApplyToken(lex, mid, '{', rest, num);
    TokenOnOpened(lex, mid, '{', rest, num);
    FirstToken(lex, mid, rest, num, next);
    BracesOnOpened(lex, next, c, num);
  }

  /** A line without heads moves the depth by its braces; what it leaves is the old blocks and new ones of this line. */
  lemma {:induction false} PlainLine(lex: Lexicon, stack: Stack, line: Line)
    requires lex.Valid() && Opened(stack) && Plainly(lex, stack, line)
    ensures var r, low := Body(lex, stack, line), Low(|stack|, line.text);
      && Opened(r) && |r| == Depth(|stack|, line.text) && low <= |r| && low <= |stack|
      && (forall i :: 0 <= i < low && i < |stack| - 1 ==> r[i] == stack[i])
      && (forall i :: low <= i < |r| ==> NewBlock(r[i], line.num))
      && (low == |stack| > 0 ==>
            r[low - 1].openParentheses == Top(stack).openParentheses + Balance(line.text) &&
            r[low - 1].kind == match Top(stack).kind
              case Class(name, access, derived) =>
                Class(name, if lex.access(line.text).Some? then lex.access(line.text).value else access, derived)
              case k => k)
  {
    PlainHeads(lex, stack, line);
    var (heads, rest) := Heads(lex, stack, line);
    BracesOnOpened(lex, heads, rest, line.num);
  }

  // ---- Namespaces

  /** What follows the first opening brace, or the whole if there is none. */
  predicate BehindBrace(rest: string, tail: string) {
    || ('{' !in rest && tail == rest)
    || exists i :: 0 <= i < |rest| && rest[i] == '{' && '{' !in rest[..i] && tail == rest[i + 1..]
  }

  lemma {:induction false} FindFirst(s: string, c: char)
    ensures var i := Find(s, c); c !in s[..i] && (i < |s| ==> s[i] == c) && (i == |s| ==> c !in s)
    decreases |s|
  {
    if s != "" && s[0] != c {
      FindFirst(s[1..], c);
      var i := Find(s[1..], c);
      assert s[..i + 1] == [s[0]] + s[1..][..i];
    }
  }

  /**
   The texts from the start of a line on of which each but the last begins with a
   namespace, the next being behind its brace, and the last does not.
   */
  predicate NamespaceTexts(lex: Lexicon, texts: seq<string>) {
    && texts != [] && lex.namespaceDecl(texts[|texts| - 1]) == None
    && forall i :: 0 <= i < |texts| - 1 ==>
         lex.namespaceDecl(texts[i]).Some? && BehindBrace(lex.namespaceDecl(texts[i]).value.1, texts[i + 1])
  }

  /** Their blocks: opened if a brace follows the name. */
  function NamespaceBlocks(lex: Lexicon, texts: seq<string>, num: nat): Stack
    requires NamespaceTexts(lex, texts)
  {
    seq(|texts| - 1, i requires 0 <= i < |texts| - 1 =>
      var (name, rest) := lex.namespaceDecl(texts[i]).value;
      BlockInfo(Namespace(name), num, '{' in rest, 0, NoAsm))
  }

  lemma {:induction false} NamespacesRead(lex: Lexicon, stack: Stack, texts: seq<string>, num: nat)
    requires lex.Valid() && NamespaceTexts(lex, texts)
    ensures Namespaces(lex, stack, texts[0], num) == (stack + NamespaceBlocks(lex, texts, num), texts[|texts| - 1])
    decreases |texts|
  {
    var blocks := NamespaceBlocks(lex, texts, num);
    if |texts| == 1 {
      assert stack + blocks == stack;
    } else {
      var (name, rest) := lex.namespaceDecl(texts[0]).value;
      FindFirst(rest, '{');
      BehindFirst(rest, texts[1]);
      var b := BlockInfo(Namespace(name), num, '{' in rest, 0, NoAsm);
      assert NamespaceTexts(lex, texts[1..]);
      NamespacesRead(lex, stack + [b], texts[1..], num);
      assert stack + [b] + NamespaceBlocks(lex, texts[1..], num) == stack + blocks;
    }
  }

  lemma {:induction false} NoneBefore(s: string, i: nat, c: char)
    requires i <= |s| && c !in s[..i]
    ensures forall j :: 0 <= j < i ==> s[j] != c
  {
    forall j | 0 <= j < i
      ensures s[j] != c
    {
      assert s[..i][j] == s[j];
    }
  }

  lemma {:induction false} BehindFirst(rest: string, tail: string)
    requires BehindBrace(rest, tail)
    ensures var i := Find(rest, '{');
      (i < |rest| <==> '{' in rest) && tail == if i < |rest| then rest[i + 1..] else rest
  {
    var k := Find(rest, '{');
    FindFirst(rest, '{');
    if '{' in rest {
      var i :| 0 <= i < |rest| && rest[i] == '{' && '{' !in rest[..i] && tail == rest[i + 1..];
      NoneBefore(rest, i, '{');
      NoneBefore(rest, k, '{');
    }
  }

  /**
   A line that begins with namespaces, and goes on with neither a class nor a brace,
   puts a block of each on those that were there.
   */
  lemma {:induction false} NamespaceLine(lex: Lexicon, base: Stack, line: Line, texts: seq<string>)
    requires lex.Valid() && NamespaceTexts(lex, texts) && |texts| > 1 && texts[0] == line.text
    requires lex.classDecl(texts[|texts| - 1]) == None && Quiet(texts[|texts| - 1])
    ensures var r := Body(lex, base, line);
      Around(base, r, line) && r[|base|..] == NamespaceBlocks(lex, texts, line.num)
  {
    var counted, blocks := CountParentheses(lex, base, line.text), NamespaceBlocks(lex, texts, line.num);
    NamespacesRead(lex, counted, texts, line.num);
    CountedAround(lex, base, blocks, line);
    QuietIsQuiet(texts[|texts| - 1]);
    assert Top(counted + blocks) == blocks[|blocks| - 1];
    assert Heads(lex, base, line) == (counted + blocks, texts[|texts| - 1]);
  }

  // ---- Classes

  /** The text of the i-th line of a class head that braces and labels are read from. */
  function Tail(decl: ClassDecl, head: seq<Line>, i: nat): string
    requires i < |head|
  {
    if i == 0 then decl.rest else head[i].text
  }

  /**
   A class head on some lines: the first one names the class, later ones have no
   head, and none but the last has a token.
   */
  predicate HeadLines(lex: Lexicon, base: Stack, decl: ClassDecl, head: seq<Line>) {
    && head != [] && lex.namespaceDecl(head[0].text) == None && lex.classDecl(head[0].text) == Some(decl)
    && !lex.inTemplate(head[0].num, decl.endOfHead)
    && (base == [] || Top(base).openParentheses + Balance(head[0].text) == 0)
    && Headless(lex, head[1..])
    && forall i :: 0 <= i < |head| - 1 ==> Quiet(Tail(decl, head, i))
  }

  /** What the labels of a head, the first read behind the name, make of the access of a struct or class. */
  function HeadAccess(lex: Lexicon, decl: ClassDecl, head: seq<Line>): string
    requires head != []
  {
    LastLabel(lex, if decl.isStruct then "public" else "private", [Line(head[0].num, decl.rest)] + head[1..])
  }

  /** The block of a class whose head has been read. */
  predicate IsClassOf(lex: Lexicon, c: BlockInfo, decl: ClassDecl, head: seq<Line>)
    requires head != []
  {
    && c.kind == Class(decl.name, HeadAccess(lex, decl, head),
                       exists i :: 0 <= i < |head| && lex.bareColon(head[i].text))
    && c.startingLine == head[0].num && c.openParentheses == Sum(head[1..])
  }

  lemma {:induction false} LabelsConcat(lex: Lexicon, access: string, a: seq<Line>, b: seq<Line>)
    ensures LastLabel(lex, access, a + b) == LastLabel(lex, LastLabel(lex, access, a), b)
    decreases |a|
  {
    if a == [] {
      assert a + b == b;
    } else {
      assert (a + b)[0] == a[0] && (a + b)[1..] == a[1..] + b;
      LabelsConcat(lex, if lex.access(a[0].text).Some? then lex.access(a[0].text).value else access, a[1..], b);
    }
  }

  lemma {:induction false} SumConcat(a: seq<Line>, b: seq<Line>)
    ensures Sum(a + b) == Sum(a) + Sum(b)
    decreases |a|
  {
    if a == [] {
      assert a + b == b;
    } else {
      assert (a + b)[0] == a[0] && (a + b)[1..] == a[1..] + b;
      SumConcat(a[1..], b);
    }
  }

  lemma {:induction false} BodiesInTurn(lex: Lexicon, stack: Stack, a: seq<Line>, b: seq<Line>)
    requires lex.Valid()
    ensures Bodies(lex, stack, a + b) == Bodies(lex, Bodies(lex, stack, a), b)
    decreases |a|
  {
    if a == [] {
      assert a + b == b;
    } else {
      assert (a + b)[0] == a[0] && (a + b)[1..] == a[1..] + b;
      BodiesInTurn(lex, Body(lex, stack, a[0]), a[1..], b);
    }
  }

  /** The line that names a class, before its braces. */
  lemma {:induction false} NamingLine(lex: Lexicon, base: Stack, decl: ClassDecl, line: Line) returns (c: BlockInfo)
    requires lex.Valid() && HeadLines(lex, base, decl, [line])
    ensures Heads(lex, base, line) == (CountParentheses(lex, base, line.text) + [c], decl.rest)
    ensures IsClassOf(lex, c, decl, [line]) && !c.seenOpenBrace
  {
    var counted := CountParentheses(lex, base, line.text);
    var access := if decl.isStruct then "public" else "private";
    var named := BlockInfo(Class(decl.name, access, false), line.num, false, 0, NoAsm);
    Named(lex, base, decl, line);
    c := Labelled(lex, counted, named, line.text, decl.rest);
    FirstLabel(lex, decl, line);
    assert [line][0] == line && [line][1..] == [];
  }

  lemma {:induction false} Named(lex: Lexicon, base: Stack, decl: ClassDecl, line: Line)
    requires lex.Valid() && HeadLines(lex, base, decl, [line])
    ensures var counted := CountParentheses(lex, base, line.text);
      && Namespaces(lex, counted, line.text, line.num) == (counted, line.text)
      && ClassHead(lex, counted, line.text, line.num) ==
         (counted + [BlockInfo(Class(decl.name, if decl.isStruct then "public" else "private", false),
                               line.num, false, 0, NoAsm)],
          decl.rest)
  {
    assert [line][0] == line;
    var counted := CountParentheses(lex, base, line.text);
    CountedAround(lex, base, [], line);
    assert counted + [] == counted;
  }

  lemma {:induction false} FirstLabel(lex: Lexicon, decl: ClassDecl, line: Line)
    ensures HeadAccess(lex, decl, [line]) ==
      if lex.access(decl.rest).Some? then lex.access(decl.rest).value else if decl.isStruct then "public" else "private"
  {
    var first, access := Line(line.num, decl.rest), if decl.isStruct then "public" else "private";
    assert [line][0] == line && [first] + [line][1..] == [first] && [first][1..] == [];
    var l := lex.access(first.text);
    assert LastLabel(lex, access, [first]) == LastLabel(lex, if l.Some? then l.value else access, []);
  }

  /** The checks of a line on a class that waits for its brace. */
  lemma {:induction false} Labelled(lex: Lexicon, base: Stack, c: BlockInfo, text: string, rest: string)
      returns (d: BlockInfo)
    requires c.kind.Class? && !c.seenOpenBrace
    ensures Access(lex, CheckBegin(lex, base + [c], text), rest) == base + [d]
    ensures d == c.(kind := Class(c.kind.name, if lex.access(rest).Some? then lex.access(rest).value else c.kind.access,
                                  c.kind.isDerived || lex.bareColon(text)))
  {
    var checked := c.(kind := c.kind.(isDerived := c.kind.isDerived || lex.bareColon(text)));
    assert CheckBegin(lex, base + [c], text) == base + [checked];
    var access := if lex.access(rest).Some? then lex.access(rest).value else c.kind.access;
    d := checked.(kind := checked.kind.(access := access));
    assert Access(lex, base + [checked], rest) == base + [d];
  }

  /** A later line of a head, before its braces. */
  lemma {:induction false} LaterLine(lex: Lexicon, base: Stack, c: BlockInfo, line: Line) returns (d: BlockInfo)
    requires lex.Valid() && Headless(lex, [line]) && c.kind.Class? && !c.seenOpenBrace
    ensures Heads(lex, base + [c], line) == (base + [d], line.text) && !d.seenOpenBrace
    ensures d.startingLine == c.startingLine && d.openParentheses == c.openParentheses + Balance(line.text)
    ensures d.kind == Class(c.kind.name, LastLabel(lex, c.kind.access, [line]),
                            c.kind.isDerived || lex.bareColon(line.text))
  {
    assert line in [line] && [line][1..] == [];
    var counted := CountOne(lex, c, line);
    assert CountParentheses(lex, base + [c], line.text) == base + [counted];
    d := Labelled(lex, base, counted, line.text, line.text);
  }

  /** The head gone on for another line. */
  lemma {:induction false} HeadGoesOn(lex: Lexicon, decl: ClassDecl, head: seq<Line>, line: Line, c: BlockInfo,
                                      d: BlockInfo)
    requires head != [] && IsClassOf(lex, c, decl, head)
    requires d.startingLine == c.startingLine && d.openParentheses == c.openParentheses + Balance(line.text)
    requires d.kind == Class(c.kind.name, LastLabel(lex, c.kind.access, [line]),
                             c.kind.isDerived || lex.bareColon(line.text))
    ensures IsClassOf(lex, d, decl, head + [line])
  {
    var more, first := head + [line], [Line(head[0].num, decl.rest)];
    assert more[0] == head[0] && more[1..] == head[1..] + [line];
    SumConcat(head[1..], [line]);
    assert [line][1..] == [] && Sum([line]) == Balance(line.text);
    assert first + more[1..] == first + head[1..] + [line];
    LabelsConcat(lex, if decl.isStruct then "public" else "private", first + head[1..], [line]);
    if c.kind.isDerived {
      var i :| 0 <= i < |head| && lex.bareColon(head[i].text);
      assert more[i] == head[i];
    }
    assert more[|head|] == line;
    assert forall i :: 0 <= i < |head| ==> more[i] == head[i];
  }

  lemma {:induction false} LastBody(lex: Lexicon, stack: Stack, lines: seq<Line>)
    requires lex.Valid() && lines != []
    ensures var n := |lines| - 1; Bodies(lex, stack, lines) == Body(lex, Bodies(lex, stack, lines[..n]), lines[n])
  {
    var n := |lines| - 1;
    BodiesInTurn(lex, stack, lines[..n], [lines[n]]);
    assert lines[..n] + [lines[n]] == lines && [lines[n]][1..] == [];
  }

  lemma {:induction false} QuietLine(lex: Lexicon, stack: Stack, line: Line)
    requires lex.Valid() && Quiet(Heads(lex, stack, line).1)
    ensures Body(lex, stack, line) == Heads(lex, stack, line).0
  {
    QuietIsQuiet(Heads(lex, stack, line).1);
  }

  /** Before the braces of the last line of a head its class is `c`, on the blocks around it. */
  ghost predicate ReadUpTo(lex: Lexicon, base: Stack, decl: ClassDecl, head: seq<Line>, c: BlockInfo)
    requires lex.Valid() && head != []
  {
    var n := |head| - 1;
    && Heads(lex, Bodies(lex, base, head[..n]), head[n]) ==
       (CountParentheses(lex, base, head[0].text) + [c], Tail(decl, head, n))
    && IsClassOf(lex, c, decl, head) && !c.seenOpenBrace
  }

  lemma {:induction false} FirstLine(lex: Lexicon, base: Stack, decl: ClassDecl, head: seq<Line>) returns (c: BlockInfo)
    requires lex.Valid() && HeadLines(lex, base, decl, head) && |head| == 1
    ensures ReadUpTo(lex, base, decl, head, c)
  {
    assert head == [head[0]] && head[..0] == [];
    c := NamingLine(lex, base, decl, head[0]);
  }

  lemma {:induction false} NextOfHead(lex: Lexicon, base: Stack, decl: ClassDecl, head: seq<Line>, b: BlockInfo)
      returns (c: BlockInfo)
    requires lex.Valid() && |head| > 1 && Headless(lex, [head[|head| - 1]])
    requires var before := head[..|head| - 1];
      Quiet(Tail(decl, before, |head| - 2)) && ReadUpTo(lex, base, decl, before, b)
    ensures ReadUpTo(lex, base, decl, head, c)
  {
    var before, last := head[..|head| - 1], head[|head| - 1];
    QuietLine(lex, Bodies(lex, base, before[..|head| - 2]), before[|head| - 2]);
    LastBody(lex, base, before);
    c := LaterLine(lex, CountParentheses(lex, base, head[0].text), b, last);
    HeadGoesOn(lex, decl, before, last, b, c);
    assert before + [last] == head;
  }

  /** All the lines of a head but the braces of the last. */
  lemma {:induction false} HeadRead(lex: Lexicon, base: Stack, decl: ClassDecl, head: seq<Line>) returns (c: BlockInfo)
    requires lex.Valid() && HeadLines(lex, base, decl, head)
    ensures ReadUpTo(lex, base, decl, head, c)
    decreases |head|
  {
    if |head| == 1 {
      c := FirstLine(lex, base, decl, head);
    } else {
      ShorterHead(lex, base, decl, head);
      var b := HeadRead(lex, base, decl, head[..|head| - 1]);
      c := NextOfHead(lex, base, decl, head, b);
    }
  }

  lemma {:induction false} ShorterHead(lex: Lexicon, base: Stack, decl: ClassDecl, head: seq<Line>)
    requires HeadLines(lex, base, decl, head) && |head| > 1
    ensures HeadLines(lex, base, decl, head[..|head| - 1]) && Headless(lex, [head[|head| - 1]])
    ensures Quiet(Tail(decl, head[..|head| - 1], |head| - 2))
  {
    var before, last := head[..|head| - 1], head[|head| - 1];
    assert last in head[1..];
    assert forall l :: l in before[1..] ==> l in head[1..];
    assert forall i :: 0 <= i < |before| ==> Tail(decl, before, i) == Tail(decl, head, i);
  }

  /** Its last line opens the class behind the quiet `a`, and what follows does not close it again. */
  predicate OpensClass(lex: Lexicon, base: Stack, decl: ClassDecl, head: seq<Line>, a: string, b: string) {
    && HeadLines(lex, base, decl, head) && Quiet(a) && Low(1, b) > 0
    && Tail(decl, head, |head| - 1) == a + ("{" + b)
  }

  /** A class head: the class, on the blocks around it, under the blocks that its last line opens in it. */
  lemma {:induction false} ClassOpens(lex: Lexicon, base: Stack, decl: ClassDecl, head: seq<Line>, a: string, b: string)
      returns (c: BlockInfo, above: Stack)
    requires lex.Valid() && OpensClass(lex, base, decl, head, a, b)
    ensures Bodies(lex, base, head) == CountParentheses(lex, base, head[0].text) + above
    ensures above != [] && above[0] == c && IsClassOf(lex, c, decl, head) && c.seenOpenBrace
  {
    var n, counted := |head| - 1, CountParentheses(lex, base, head[0].text);
    var waiting := HeadRead(lex, base, decl, head);
    var last := head[n];
    LastBody(lex, base, head);
    c := waiting.(seenOpenBrace := true);
    HeadByText(lex, counted, waiting, a, '{', b, last.num);
    assert "{" == ['{'];
    LowKeeps(lex, [c], b, last.num);
    TokensKeepStay(lex, [c], b, last.num);
    BracesAreLocal(lex, counted, [c], b, last.num);
    BracesOnLowest(lex, [c], b, last.num);
    above := Braces(lex, [c], b, last.num);
  }

  /**
   A class from its head on, through any lines that do not close it: it stands on
   the blocks that were there, with the name and the line of its head; it is derived
   if and only if a line of the head has a bare colon; and its access is that of the
   last label, of the head or of the lines that have it on top, or else public for a
   struct and private for a class.
   */
  lemma {:induction false} ClassByText(lex: Lexicon, base: Stack, decl: ClassDecl, head: seq<Line>, a: string,
                                       b: string, lines: seq<Line>)
    requires lex.Valid() && OpensClass(lex, base, decl, head, a, b)
    requires var s := Bodies(lex, base, head); |base| < |s| && Keeps(lex, s[|base|..], lines)
    ensures var above, r := Bodies(lex, base, head)[|base|..], Bodies(lex, base, head + lines);
      && |base| < |r| && Around(base, r, head[0])
      && var c := r[|base|];
         && c.kind.Class? && c.kind.name == decl.name && c.startingLine == head[0].num && c.seenOpenBrace
         && (c.kind.isDerived <==> exists i :: 0 <= i < |head| && lex.bareColon(head[i].text))
         && c.kind.access == LastLabel(lex, if decl.isStruct then "public" else "private",
              [Line(head[0].num, decl.rest)] + head[1..] + Unheaded(lex, above, lines))
         && c.openParentheses == Sum(head[1..]) + Sum(Own(lex, above, lines))
  {
    var counted := CountParentheses(lex, base, head[0].text);
    var c, above := ClassOpens(lex, base, decl, head, a, b);
    BodiesInTurn(lex, base, head, lines);
    CountedAround(lex, base, Bodies(lex, above, lines), head[0]);
    assert Bodies(lex, base, head)[|base|..] == above;
    KeepsStays(lex, above, lines);
    LinesAreLocal(lex, counted, above, lines);
    LinesOnLowest(lex, above, lines);
    CountedSum(lex, c, Own(lex, above, lines));
    LabelsConcat(lex, if decl.isStruct then "public" else "private", [Line(head[0].num, decl.rest)] + head[1..],
                 Unheaded(lex, above, lines));
  }

  // ---- Inline assembly

  /**
   When one of its lines has been read, a block that was outside assembly is inside
   if and only if that line brings its open parentheses to one and begins as assembly
   does; a block opened as one of assembly stays one.
   */
  lemma {:induction false} AsmBegins(lex: Lexicon, base: Stack, b: BlockInfo, lines: seq<Line>, line: Line)
    requires lex.Valid() && b.seenOpenBrace && Keeps(lex, [b], lines) && Own(lex, [b], lines) == [line]
    requires b.inlineAsm != InsideAsm
    ensures var r := Bodies(lex, base + [b], lines);
      |r| > |base| && r[|base|].inlineAsm ==
        if b.inlineAsm == BlockAsm then BlockAsm
        else if Balance(line.text) != 0 && b.openParentheses + Balance(line.text) == 1 && lex.asm(line.text)
        then InsideAsm
        else NoAsm
  {
    BlockOnBase(lex, base, b, lines);
    assert [line][1..] == [];
  }
}
