/**
 The language of template argument lists, as cpplint's matchers take it: angle
 brackets around text, nested lists and bracketed groups, in which anything may
 stand. A machine over tokens with one stack finds the end of such a list; it
 stands for both matchers, each of which makes its own tokens of a line.
 */
module AngleWords {
  import opened Brackets
  import opened ExpressionScanner

  /** What a character is to a matcher; Drop is a shift operator, which closes a list that is open. */
  datatype Token = Other | Bracket(c: char) | Enter | Leave | Drop | Semi

  // ---- The language

  /** Tokens that mean nothing to a list. */
  predicate Inert(t: Token) {
    t.Other? || (t.Bracket? && !IsOpener(t.c) && !IsCloser(t.c))
  }

  /** Only the brackets, with a letter for everything else. */
  function Char(t: Token): char {
    if t.Bracket? then t.c else 'x'
  }

  function Chars(ts: seq<Token>): (s: string)
    ensures |s| == |ts|
    ensures forall i :: 0 <= i < |ts| ==> s[i] == Char(ts[i])
  {
    seq(|ts|, i requires 0 <= i < |ts| => Char(ts[i]))
  }

  /** A derivation of the inside of a list. */
  datatype Inside =
    | Nil
    | Plain(t: Token, rest: Inside)
    | Nested(list: Inside, end: Token, rest: Inside)
    | Group(open: char, body: seq<Token>, rest: Inside)
  {
    ghost predicate WellFormed() {
      match this
      case Nil => true
      case Plain(t, rest) => Inert(t) && rest.WellFormed()
      case Nested(list, end, rest) => list.WellFormed() && (end == Leave || end == Drop) && rest.WellFormed()
      case Group(open, body, rest) => IsOpener(open) && Balanced(Chars(body)) && rest.WellFormed()
    }

    function Yield(): seq<Token> {
      match this
      case Nil => []
      case Plain(t, rest) => [t] + rest.Yield()
      case Nested(list, end, rest) => [Enter] + (list.Yield() + ([end] + rest.Yield()))
      case Group(open, body, rest) => [Bracket(open)] + (body + ([Bracket(Flip(open))] + rest.Yield()))
    }
  }

  /** A whole list. */
  ghost predicate IsList(ts: seq<Token>) {
    exists w: Inside :: w.WellFormed() && ts == [Enter] + (w.Yield() + [Leave])
  }

  // ---- The machine

  datatype Scanned = Done(length: nat) | Failed | Running(stack: seq<char>) {
    function After(n: nat): Scanned {
      match this
      case Done(k) => Done(n + k)
      case _ => this
    }
  }

  function TokenStep(t: Token, stack: seq<char>): Scanned {
    match t
    case Other => Running(stack)
    case Enter => Running(stack + ['<'])
    case Leave =>
      if !TopIs(stack, '<') then Running(stack) else if |stack| == 1 then Done(1) else Running(Init(stack))
    case Drop =>
      if !TopIs(stack, '<') then Running(stack) else if |stack| == 1 then Failed else Running(Init(stack))
    case Semi =>
      var st := PopAngles(stack, '<');
      if st == [] then Failed else Running(st)
    case Bracket(c) =>
      if IsOpener(c) then Running(stack + [c])
      else if !IsCloser(c) then Running(stack)
      else
        var st := PopAngles(stack, '<');
        if st == [] || Flip(st[|st| - 1]) != c then Failed
        else if |st| == 1 then Done(1)
        else Running(Init(st))
  }

  function Run(ts: seq<Token>, stack: seq<char>): Scanned {
    if ts == [] then Running(stack)
    else
      match TokenStep(ts[0], stack)
      case Running(st) => Run(ts[1..], st).After(1)
      case r => r
  }

  lemma {:induction false} RunCons(t: Token, ts: seq<Token>, stack: seq<char>)
    ensures Run([t] + ts, stack) == match TokenStep(t, stack) case Running(st) => Run(ts, st).After(1) case r => r
  {
    assert ([t] + ts)[1..] == ts;
  }

  lemma {:induction false} RunConcat(u: seq<Token>, v: seq<Token>, stack: seq<char>)
    ensures Run(u + v, stack) == match Run(u, stack) case Running(st) => Run(v, st).After(|u|) case r => r
    decreases |u|
  {
    if u == [] {
      assert u + v == v;
    } else {
      assert (u + v)[0] == u[0] && (u + v)[1..] == u[1..] + v;
      if TokenStep(u[0], stack).Running? {
        RunConcat(u[1..], v, TokenStep(u[0], stack).stack);
      }
    }
  }

  // ---- Inside a group

  predicate AllAngles(s: seq<char>) {
    forall i :: 0 <= i < |s| ==> s[i] == '<'
  }

  lemma {:induction false} PopsAngles(st: seq<char>, angles: seq<char>)
    requires AllAngles(angles) && (st == [] || st[|st| - 1] != '<')
    ensures PopAngles(st + angles, '<') == st
    decreases |angles|
  {
    if angles == [] {
      assert st + angles == st;
    } else {
      var fewer := angles[..|angles| - 1];
      assert (st + angles)[..|st + angles| - 1] == st + fewer;
      PopsAngles(st, fewer);
    }
  }

  /** In a group, a token that is no bracket only changes the angle brackets opened in it. */
  lemma {:induction false} StepInGroup(t: Token, st: seq<char>, angles: seq<char>) returns (more: seq<char>)
    requires AllAngles(angles) && st != [] && IsOpener(st[|st| - 1])
    requires !IsOpener(Char(t)) && !IsCloser(Char(t))
    ensures AllAngles(more) && TokenStep(t, st + angles) == Running(st + more)
  {
    more := angles;
    if t == Enter {
      more := angles + ['<'];
      assert st + angles + ['<'] == st + more;
    } else if (t == Leave || t == Drop) && angles != [] {
      more := angles[..|angles| - 1];
      assert Init(st + angles) == st + more;
    } else if t == Semi {
      more := [];
      PopsAngles(st, angles);
      assert st + more == st;
    }
  }

  /** The bracket that ends a group takes the angle brackets opened in it away. */
  lemma {:induction false} EndOfGroup(c: char, under: seq<char>, open: char, angles: seq<char>)
    requires AllAngles(angles) && IsOpener(open) && IsCloser(c)
    ensures TokenStep(Bracket(c), under + [open] + angles) ==
            if Flip(open) != c then Failed else if under == [] then Done(1) else Running(under)
  {
    PopsAngles(under + [open], angles);
    assert Init(under + [open]) == under;
  }

  /** Whatever stands in a group, the stack under it is kept. */
  lemma {:induction false} BodyOfGroup(w: Word, ts: seq<Token>, st: seq<char>, angles: seq<char>)
      returns (more: seq<char>)
    requires w.WellFormed() && Chars(ts) == w.Yield()
    requires AllAngles(angles) && st != [] && IsOpener(st[|st| - 1])
    ensures AllAngles(more) && Run(ts, st + angles) == Running(st + more)
    decreases w
  {
    match w
    case Empty =>
      more := angles;
    case Text(c, rest) =>
      CharsOfText(w, ts);
      var next := StepInGroup(ts[0], st, angles);
      more := BodyOfGroup(rest, ts[1..], st, next);
    case Group(open, inner, rest) =>
      var under, n := st + angles, |inner.Yield()|;
      var body, tail := ts[1..n + 1], ts[n + 2..];
      CharsOfGroup(w, ts);
      var inside := BodyOfGroup(inner, body, under + [open], []);
      assert under + [open] + [] == under + [open];
      EndOfGroup(Flip(open), under, open, inside);
      more := BodyOfGroup(rest, tail, st, angles);
      GroupRuns(open, body, tail, under, inside);
  }

  lemma {:induction false} CharsOfText(w: Word, ts: seq<Token>)
    requires w.Text? && Chars(ts) == w.Yield()
    ensures |ts| > 0 && Char(ts[0]) == w.c && Chars(ts[1..]) == w.rest.Yield()
  {
    assert w.Yield()[0] == w.c && w.Yield()[1..] == w.rest.Yield();
    assert |ts| == |w.Yield()|;
  }

  lemma {:induction false} CharsOfGroup(w: Word, ts: seq<Token>)
    requires w.Group? && w.WellFormed() && Chars(ts) == w.Yield()
    ensures var n := |w.inner.Yield()|;
      && n + 2 <= |ts| && ts == [Bracket(w.open)] + (ts[1..n + 1] + ([Bracket(Flip(w.open))] + ts[n + 2..]))
      && Chars(ts[1..n + 1]) == w.inner.Yield() && Chars(ts[n + 2..]) == w.rest.Yield()
  {
    var n := |w.inner.Yield()|;
    PartsOfGroup(w);
    assert |ts| == |w.Yield()|;
    assert Char(ts[0]) == w.open && Char(ts[n + 1]) == Flip(w.open);
    assert ts[0] == Bracket(w.open) && ts[n + 1] == Bracket(Flip(w.open));
    assert Chars(ts[1..n + 1]) == Chars(ts)[1..n + 1];
    assert Chars(ts[n + 2..]) == Chars(ts)[n + 2..];
  }

  lemma {:induction false} PartsOfGroup(w: Word)
    requires w.Group?
    ensures var n, y := |w.inner.Yield()|, w.Yield();
      |y| == n + 2 + |w.rest.Yield()| && y[0] == w.open && y[n + 1] == Flip(w.open)
      && y[1..n + 1] == w.inner.Yield() && y[n + 2..] == w.rest.Yield()
  {
  }

  lemma {:induction false} GroupRuns(open: char, body: seq<Token>, tail: seq<Token>, under: seq<char>,
                                     inside: seq<char>)
    requires IsOpener(open) && AllAngles(inside) && under != []
    requires Run(body, under + [open]) == Running(under + [open] + inside)
    ensures Run([Bracket(open)] + (body + ([Bracket(Flip(open))] + tail)), under) == Run(tail, under).After(|body| + 2)
  {
    var rest := [Bracket(Flip(open))] + tail;
    RunCons(Bracket(open), body + rest, under);
    RunConcat(body, rest, under + [open]);
    RunCons(Bracket(Flip(open)), tail, under + [open] + inside);
    EndOfGroup(Flip(open), under, open, inside);
  }

  // ---- A list is found

  function Angles(k: nat): (s: seq<char>)
    ensures |s| == k && AllAngles(s)
  {
    seq(k, _ => '<')
  }

  lemma {:induction false} AnglesMore(k: nat)
    ensures Angles(k) + ['<'] == Angles(k + 1) && Init(Angles(k + 1)) == Angles(k)
  {
  }

  /** The inside of a list leaves the lists around it open. */
  lemma {:induction false} InsideRuns(w: Inside, tail: seq<Token>, k: nat)
    requires w.WellFormed() && k > 0
    ensures Run(w.Yield() + tail, Angles(k)) == Run(tail, Angles(k)).After(|w.Yield()|)
    decreases w
  {
    match w
    case Nil =>
      assert w.Yield() + tail == tail;
    case Plain(t, rest) =>
      assert w.Yield() + tail == [t] + (rest.Yield() + tail);
      ListStep(t, k);
      RunCons(t, rest.Yield() + tail, Angles(k));
      InsideRuns(rest, tail, k);
    case Nested(list, end, rest) =>
      Rebracket(Enter, list.Yield(), end, rest.Yield(), tail);
      InsideRuns(list, [end] + (rest.Yield() + tail), k + 1);
      InsideRuns(rest, tail, k);
      NestedRuns(list.Yield(), end, rest.Yield() + tail, k);
    case Group(open, body, rest) =>
      Rebracket(Bracket(open), body, Bracket(Flip(open)), rest.Yield(), tail);
      InsideRuns(rest, tail, k);
      GroupInsideRuns(open, body, rest.Yield() + tail, k);
  }

  lemma {:induction false} NestedRuns(list: seq<Token>, end: Token, more: seq<Token>, k: nat)
    requires k > 0 && (end == Leave || end == Drop)
    requires Run(list + ([end] + more), Angles(k + 1)) == Run([end] + more, Angles(k + 1)).After(|list|)
    ensures Run([Enter] + (list + ([end] + more)), Angles(k)) == Run(more, Angles(k)).After(|list| + 2)
  {
    ListStep(Enter, k);
    RunCons(Enter, list + ([end] + more), Angles(k));
    ListStep(end, k + 1);
    RunCons(end, more, Angles(k + 1));
  }

  lemma {:induction false} GroupInsideRuns(open: char, body: seq<Token>, more: seq<Token>, k: nat)
    requires k > 0 && IsOpener(open) && Balanced(Chars(body))
    ensures Run([Bracket(open)] + (body + ([Bracket(Flip(open))] + more)), Angles(k)) ==
            Run(more, Angles(k)).After(|body| + 2)
  {
    var word: Word :| word.WellFormed() && word.Yield() == Chars(body);
    assert Angles(k) + [open] + [] == Angles(k) + [open];
    var inside := BodyOfGroup(word, body, Angles(k) + [open], []);
    GroupRuns(open, body, more, Angles(k), inside);
  }

  // ---- What is found is a list

  /** The first `n` tokens are the body `w` of a group, its end comes next, and the run goes on without it. */
  ghost predicate ReadsGroup(ts: seq<Token>, under: seq<char>, open: char, angles: seq<char>, w: Word, n: nat) {
    && n < |ts| && w.WellFormed() && Chars(ts[..n]) == w.Yield() && ts[n] == Bracket(Flip(open))
    && Run(ts, under + [open] + angles) == Run(ts[n + 1..], under).After(n + 1)
  }

  /** A run that ends with a group open reads its body. */
  lemma {:induction false} GroupEnds(ts: seq<Token>, under: seq<char>, open: char, angles: seq<char>)
      returns (w: Word, n: nat)
    requires AllAngles(angles) && IsOpener(open) && under != [] && Run(ts, under + [open] + angles).Done?
    ensures ReadsGroup(ts, under, open, angles, w, n)
    decreases |ts|
  {
    var st := under + [open];
    var t := ts[0];
    if t.Bracket? && IsOpener(t.c) {
      assert st + angles + [t.c] + [] == st + angles + [t.c];
      var inner, k := GroupEnds(ts[1..], st + angles, t.c, []);
      var rest, m := GroupEnds(ts[1..][k + 1..], under, open, angles);
      w, n := Word.Group(t.c, inner, rest), k + 2 + m;
      GroupInGroup(ts, under, open, angles, inner, k, rest, m);
    } else if t.Bracket? && IsCloser(t.c) {
      EndOfGroup(t.c, under, open, angles);
      FlipsBack(open, t.c);
      w, n := Word.Empty, 0;
    } else {
      var more := StepInGroup(t, st, angles);
      var rest, m := GroupEnds(ts[1..], under, open, more);
      w, n := Word.Text(Char(t), rest), m + 1;
      TextInGroup(ts, under, open, angles, more, rest, m);
    }
  }

  lemma {:induction false} GroupInGroup(ts: seq<Token>, under: seq<char>, open: char, angles: seq<char>,
                                        inner: Word, k: nat, rest: Word, m: nat)
    requires ts != [] && ts[0].Bracket? && IsOpener(ts[0].c)
    requires ReadsGroup(ts[1..], under + [open] + angles, ts[0].c, [], inner, k)
    requires ReadsGroup(ts[1..][k + 1..], under, open, angles, rest, m)
    ensures ReadsGroup(ts, under, open, angles, Word.Group(ts[0].c, inner, rest), k + 2 + m)
  {
    var st, tail := under + [open] + angles, ts[1..][k + 1..];
    assert st + [ts[0].c] + [] == st + [ts[0].c];
    assert tail == ts[k + 2..] && tail[m + 1..] == ts[k + 2 + m + 1..];
    GroupChars(ts, k, m, ts[0].c, inner, rest);
  }

  lemma {:induction false} TextInGroup(ts: seq<Token>, under: seq<char>, open: char, angles: seq<char>,
                                       more: seq<char>, rest: Word, m: nat)
    requires ts != [] && !IsOpener(Char(ts[0])) && !IsCloser(Char(ts[0]))
    requires TokenStep(ts[0], under + [open] + angles) == Running(under + [open] + more)
    requires ReadsGroup(ts[1..], under, open, more, rest, m)
    ensures ReadsGroup(ts, under, open, angles, Word.Text(Char(ts[0]), rest), m + 1)
  {
    assert ts[..m + 1] == [ts[0]] + ts[1..][..m];
    CharsConcat([ts[0]], ts[1..][..m]);
    assert ts[1..][m + 1..] == ts[m + 2..];
  }

  lemma {:induction false} FlipsBack(open: char, c: char)
    requires IsOpener(open) && Flip(open) == c
    ensures IsCloser(c) && Flip(c) == open
  {
  }

  lemma {:induction false} GroupChars(ts: seq<Token>, k: nat, m: nat, open: char, inner: Word, rest: Word)
    requires k + 2 + m <= |ts| && ts[0] == Bracket(open) && IsOpener(open) && ts[1..][k] == Bracket(Flip(open))
    requires Chars(ts[1..][..k]) == inner.Yield() && Chars(ts[k + 2..][..m]) == rest.Yield()
    ensures Chars(ts[..k + 2 + m]) == Word.Group(open, inner, rest).Yield()
  {
    assert ts[..k + 2 + m] == [ts[0]] + (ts[1..][..k] + ([ts[k + 1]] + ts[k + 2..][..m]));
    CharsConcat([ts[0]], ts[1..][..k] + ([ts[k + 1]] + ts[k + 2..][..m]));
    CharsConcat(ts[1..][..k], [ts[k + 1]] + ts[k + 2..][..m]);
    CharsConcat([ts[k + 1]], ts[k + 2..][..m]);
    assert Chars([ts[0]]) == [open] && Chars([ts[k + 1]]) == [Flip(open)];
  }

  lemma {:induction false} CharsConcat(a: seq<Token>, b: seq<Token>)
    ensures Chars(a + b) == Chars(a) + Chars(b)
  {
  }

  lemma {:induction false} AllPopped(k: nat)
    ensures PopAngles(Angles(k), '<') == []
  {
    assert [] + Angles(k) == Angles(k);
    PopsAngles([], Angles(k));
  }

  /**
   The first `n` tokens are the inside `w` of the innermost of `k` lists, its end comes
   next, and the run goes on with the others; the outermost ends with Leave.
   */
  ghost predicate ReadsList(ts: seq<Token>, k: nat, w: Inside, n: nat)
    requires k > 0
  {
    && n < |ts| && w.WellFormed() && ts[..n] == w.Yield() && (ts[n] == Leave || ts[n] == Drop)
    && if k == 1 then ts[n] == Leave && Run(ts, Angles(k)) == Done(n + 1)
       else Run(ts, Angles(k)) == Run(ts[n + 1..], Angles(k - 1)).After(n + 1)
  }

  /** What a token does with `k` lists open and nothing else. */
  lemma {:induction false} ListStep(t: Token, k: nat)
    requires k > 0
    ensures TokenStep(t, Angles(k)) ==
      if t == Enter then Running(Angles(k + 1))
      else if t == Leave && k == 1 then Done(1)
      else if t == Leave || (t == Drop && k > 1) then Running(Angles(k - 1))
      else if t.Bracket? && IsOpener(t.c) then Running(Angles(k) + [t.c])
      else if Inert(t) then Running(Angles(k))
      else Failed
  {
    AllPopped(k);
    AnglesMore(k);
    AnglesMore(k - 1);
    assert TopIs(Angles(k), '<');
  }

  /** A run that ends with lists open, and nothing else, reads the inside of the innermost. */
  lemma {:induction false} ListEnds(ts: seq<Token>, k: nat) returns (w: Inside, n: nat)
    requires k > 0 && Run(ts, Angles(k)).Done?
    ensures ReadsList(ts, k, w, n)
    decreases |ts|
  {
    var t := ts[0];
    ListStep(t, k);
    if t.Bracket? && IsOpener(t.c) {
      assert Angles(k) + [t.c] + [] == Angles(k) + [t.c];
      var word, j := GroupEnds(ts[1..], Angles(k), t.c, []);
      var rest, m := ListEnds(ts[1..][j + 1..], k);
      w, n := Inside.Group(t.c, ts[1..][..j], rest), j + 2 + m;
      GroupInList(ts, k, word, j, rest, m);
    } else if t == Enter {
      var list, j := ListEnds(ts[1..], k + 1);
      var rest, m := ListEnds(ts[1..][j + 1..], k);
      w, n := Nested(list, ts[1..][j], rest), j + 2 + m;
      ListInList(ts, k, list, j, rest, m);
    } else if t == Leave || t == Drop {
      w, n := Nil, 0;
    } else {
      var rest, m := ListEnds(ts[1..], k);
      w, n := Plain(t, rest), m + 1;
      PlainInList(ts, k, rest, m);
    }
  }

  lemma {:induction false} CutTwice(ts: seq<Token>, j: nat, m: nat)
    requires j + 2 + m < |ts|
    ensures ts[1..][j + 1..][m + 1..] == ts[j + 2 + m + 1..] && ts[1..][j + 1..][m] == ts[j + 2 + m]
    ensures ts[..j + 2 + m] == [ts[0]] + (ts[1..][..j] + ([ts[1..][j]] + ts[1..][j + 1..][..m]))
  {
  }

  lemma {:induction false} GroupInList(ts: seq<Token>, k: nat, word: Word, j: nat, rest: Inside, m: nat)
    requires k > 0 && ts != [] && ts[0].Bracket? && IsOpener(ts[0].c)
    requires ReadsGroup(ts[1..], Angles(k), ts[0].c, [], word, j) && ReadsList(ts[1..][j + 1..], k, rest, m)
    ensures ReadsList(ts, k, Inside.Group(ts[0].c, ts[1..][..j], rest), j + 2 + m)
  {
    CutTwice(ts, j, m);
    assert Angles(k) + [ts[0].c] + [] == Angles(k) + [ts[0].c];
  }

  lemma {:induction false} ListInList(ts: seq<Token>, k: nat, list: Inside, j: nat, rest: Inside, m: nat)
    requires k > 0 && ts != [] && ts[0] == Enter
    requires ReadsList(ts[1..], k + 1, list, j) && ReadsList(ts[1..][j + 1..], k, rest, m)
    ensures ReadsList(ts, k, Nested(list, ts[1..][j], rest), j + 2 + m)
  {
    CutTwice(ts, j, m);
    ListRead(ts, k, j);
  }

  lemma {:induction false} ListRead(ts: seq<Token>, k: nat, j: nat)
    requires k > 0 && ts != [] && ts[0] == Enter && j < |ts[1..]|
    requires Run(ts[1..], Angles(k + 1)) == Run(ts[1..][j + 1..], Angles(k)).After(j + 1)
    ensures Run(ts, Angles(k)) == Run(ts[1..][j + 1..], Angles(k)).After(j + 2)
  {
    ListStep(Enter, k);
  }

  lemma {:induction false} PlainInList(ts: seq<Token>, k: nat, rest: Inside, m: nat)
    requires k > 0 && ts != [] && Inert(ts[0]) && ReadsList(ts[1..], k, rest, m)
    ensures ReadsList(ts, k, Plain(ts[0], rest), m + 1)
  {
    assert ts[..m + 1] == [ts[0]] + ts[1..][..m];
    assert ts[1..][m + 1..] == ts[m + 2..];
  }

  /** From the start of a list the machine stops exactly behind its end; without one it finds nothing. */
  lemma {:induction false} RunFindsList(ts: seq<Token>, n: nat)
    requires ts != [] && ts[0] == Enter
    ensures Run(ts, []) == Done(n) <==> n <= |ts| && IsList(ts[..n])
  {
    if Run(ts, []) == Done(n) {
      FoundIsList(ts, n);
    }
    if n <= |ts| && IsList(ts[..n]) {
      var w: Inside :| w.WellFormed() && ts[..n] == [Enter] + (w.Yield() + [Leave]);
      ListIsFound(w, ts[n..]);
      Regroup(w.Yield(), ts[n..]);
      assert ts == ts[..n] + ts[n..];
    }
  }

  lemma {:induction false} Regroup(y: seq<Token>, tail: seq<Token>)
    ensures [Enter] + (y + [Leave]) + tail == [Enter] + (y + ([Leave] + tail))
  {
  }

  lemma {:induction false} FoundIsList(ts: seq<Token>, n: nat)
    requires ts != [] && ts[0] == Enter && Run(ts, []) == Done(n)
    ensures n <= |ts| && IsList(ts[..n])
  {
    var rest := ts[1..];
    assert ts == [Enter] + rest && [] + ['<'] == Angles(1);
    RunCons(Enter, rest, []);
    var w, m := ListEnds(rest, 1);
    assert ts[..n] == [Enter] + (rest[..m] + [rest[m]]);
  }

  lemma {:induction false} ListIsFound(w: Inside, tail: seq<Token>)
    requires w.WellFormed()
    ensures Run([Enter] + (w.Yield() + ([Leave] + tail)), []) == Done(|w.Yield()| + 2)
  {
    var rest := w.Yield() + ([Leave] + tail);
    assert [] + ['<'] == Angles(1);
    RunCons(Enter, rest, []);
    InsideRuns(w, [Leave] + tail, 1);
    RunCons(Leave, tail, Angles(1));
    ListStep(Leave, 1);
  }

  // ---- Mirror images

  function Turned(t: Token): Token {
    match t
    case Bracket(c) => Bracket(Flip(c))
    case Enter => Leave
    case Leave => Enter
    case _ => t
  }

  /** The tokens from right to left, each turned round. */
  function Mirrored(ts: seq<Token>): (r: seq<Token>)
    ensures |r| == |ts|
    ensures forall i :: 0 <= i < |ts| ==> r[i] == Turned(ts[|ts| - 1 - i])
  {
    seq(|ts|, i requires 0 <= i < |ts| => Turned(ts[|ts| - 1 - i]))
  }

  lemma {:induction false} MirroredConcat(a: seq<Token>, b: seq<Token>)
    ensures Mirrored(a + b) == Mirrored(b) + Mirrored(a)
  {
  }

  function Append(w: Inside, v: Inside): Inside {
    match w
    case Nil => v
    case Plain(t, rest) => Plain(t, Append(rest, v))
    case Nested(list, end, rest) => Nested(list, end, Append(rest, v))
    case Group(open, body, rest) => Inside.Group(open, body, Append(rest, v))
  }

  lemma {:induction false} Rebracket(first: Token, mid: seq<Token>, last: Token, rest: seq<Token>, more: seq<Token>)
    ensures ([first] + (mid + ([last] + rest))) + more == [first] + (mid + ([last] + (rest + more)))
  {
  }

  lemma {:induction false} AppendYields(w: Inside, v: Inside)
    requires w.WellFormed() && v.WellFormed()
    ensures Append(w, v).WellFormed() && Append(w, v).Yield() == w.Yield() + v.Yield()
    decreases w
  {
    match w
    case Nil =>
    case Plain(t, rest) => AppendYields(rest, v);
    case Nested(list, end, rest) =>
      AppendYields(rest, v);
      Rebracket(Enter, list.Yield(), end, rest.Yield(), v.Yield());
    case Group(open, body, rest) =>
      AppendYields(rest, v);
      Rebracket(Bracket(open), body, Bracket(Flip(open)), rest.Yield(), v.Yield());
  }

  lemma {:induction false} MirroredChars(ts: seq<Token>)
    ensures Chars(Mirrored(ts)) == MirrorText(Chars(ts))
  {
  }

  lemma {:induction false} MirrorOfThree(first: Token, mid: seq<Token>, last: Token, rest: seq<Token>)
    ensures Mirrored([first] + (mid + ([last] + rest))) ==
            Mirrored(rest) + ([Turned(last)] + (Mirrored(mid) + ([Turned(first)] + [])))
  {
  }

  lemma {:induction false} MirrorNested(list: seq<Token>, rest: seq<Token>, l: Inside, r: Inside) returns (v: Inside)
    requires l.WellFormed() && r.WellFormed() && l.Yield() == Mirrored(list) && r.Yield() == Mirrored(rest)
    ensures v.WellFormed() && v.Yield() == Mirrored([Enter] + (list + ([Leave] + rest)))
  {
    v := Append(r, Nested(l, Leave, Nil));
    AppendYields(r, Nested(l, Leave, Nil));
    MirrorOfThree(Enter, list, Leave, rest);
  }

  lemma {:induction false} MirrorGroup(open: char, body: seq<Token>, rest: seq<Token>, r: Inside) returns (v: Inside)
    requires IsOpener(open) && Balanced(Chars(body)) && r.WellFormed() && r.Yield() == Mirrored(rest)
    ensures v.WellFormed() && v.Yield() == Mirrored([Bracket(open)] + (body + ([Bracket(Flip(open))] + rest)))
  {
    var w := Inside.Group(open, Mirrored(body), Nil);
    v := Append(r, w);
    MirroredChars(body);
    MirrorBalanced(Chars(body));
    assert w.WellFormed();
    AppendYields(r, w);
    MirrorOfThree(Bracket(open), body, Bracket(Flip(open)), rest);
  }

  /** Without shift operators, the mirror image of the inside of a list is one too. */
  lemma {:induction false} MirrorInside(w: Inside) returns (v: Inside)
    requires w.WellFormed() && Drop !in w.Yield()
    ensures v.WellFormed() && v.Yield() == Mirrored(w.Yield())
    decreases w
  {
    match w
    case Nil =>
      v := Nil;
    case Plain(t, rest) =>
      var r := MirrorInside(rest);
      AppendYields(r, Plain(Turned(t), Nil));
      v := Append(r, Plain(Turned(t), Nil));
      MirroredConcat([t], rest.Yield());
      assert Mirrored([t]) == [Turned(t)] + [];
    case Nested(list, end, rest) =>
      assert w.Yield()[|list.Yield()| + 1] == end;
      var l := MirrorInside(list);
      var r := MirrorInside(rest);
      v := MirrorNested(list.Yield(), rest.Yield(), l, r);
    case Group(open, body, rest) =>
      var r := MirrorInside(rest);
      v := MirrorGroup(open, body, rest.Yield(), r);
  }

  lemma {:induction false} MirrorList(ts: seq<Token>)
    requires IsList(ts) && Drop !in ts
    ensures IsList(Mirrored(ts))
  {
    var w: Inside :| w.WellFormed() && ts == [Enter] + (w.Yield() + [Leave]);
    assert Drop !in w.Yield() by {
      assert forall i :: 0 <= i < |w.Yield()| ==> w.Yield()[i] == ts[i + 1];
    }
    var v := MirrorInside(w);
    MirrorOfThree(Enter, w.Yield(), Leave, []);
    assert Mirrored([]) + ([Enter] + (v.Yield() + ([Leave] + []))) == [Enter] + (v.Yield() + [Leave]);
  }

  lemma {:induction false} MirroredTwice(ts: seq<Token>)
    requires Drop !in ts
    ensures Mirrored(Mirrored(ts)) == ts && Drop !in Mirrored(ts)
  {
  }
}
