/**
 The language of balanced, typed brackets, and a plain one-stack recogniser
 for it. Nothing here knows about angle brackets, semicolons or lines: it is
 the reference that cpplint's scanners are compared with.
 */
module Brackets {

  predicate IsOpener(c: char) {
    c == '(' || c == '[' || c == '{'
  }

  predicate IsCloser(c: char) {
    c == ')' || c == ']' || c == '}'
  }

  /** Exchanges an opening bracket and its closing bracket; other characters are fixed. */
  function Flip(c: char): char {
    match c
    case '(' => ')'
    case ')' => '('
    case '[' => ']'
    case ']' => '['
    case '{' => '}'
    case '}' => '{'
    case _ => c
  }

  /** A derivation of a balanced word. */
  datatype Word =
    | Empty
    | Text(c: char, rest: Word)
    | Group(open: char, inner: Word, rest: Word)
  {
    ghost predicate WellFormed() {
      match this
      case Empty => true
      case Text(c, rest) => !IsOpener(c) && !IsCloser(c) && rest.WellFormed()
      case Group(open, inner, rest) => IsOpener(open) && inner.WellFormed() && rest.WellFormed()
    }

    function Yield(): string {
      match this
      case Empty => ""
      case Text(c, rest) => [c] + rest.Yield()
      case Group(open, inner, rest) => [open] + (inner.Yield() + ([Flip(open)] + rest.Yield()))
    }

    function Append(w: Word): Word {
      match this
      case Empty => w
      case Text(c, rest) => Text(c, rest.Append(w))
      case Group(open, inner, rest) => Group(open, inner, rest.Append(w))
    }

    /** The derivation of the word read from right to left. */
    function Mirror(): Word {
      match this
      case Empty => Empty
      case Text(c, rest) => rest.Mirror().Append(Text(c, Empty))
      case Group(open, inner, rest) => rest.Mirror().Append(Group(open, inner.Mirror(), Empty))
    }
  }

  ghost predicate Balanced(s: string) {
    exists w: Word :: w.WellFormed() && w.Yield() == s
  }

  /** The text read from right to left, each bracket exchanged for its partner. */
  function MirrorText(s: string): (r: string)
    ensures |r| == |s|
    ensures forall i :: 0 <= i < |s| ==> r[i] == Flip(s[|s| - 1 - i])
  {
    seq(|s|, i requires 0 <= i < |s| => Flip(s[|s| - 1 - i]))
  }

  /** What a scan of a text with a stack of open brackets comes to. */
  datatype Outcome =
    | Closed(length: nat)      // the stack ran empty after this many characters
    | Stuck                    // a closing bracket met the wrong opener
    | Open(stack: seq<char>)   // end of the text, these brackets still open
  {
    function After(n: nat): Outcome {
      match this
      case Closed(k) => Closed(n + k)
      case _ => this
    }
  }

  function Scan(s: string, stack: seq<char>): Outcome {
    if s == "" then
      Open(stack)
    else if IsOpener(s[0]) then
      Scan(s[1..], stack + [s[0]]).After(1)
    else if IsCloser(s[0]) then
      if stack == [] || Flip(stack[|stack| - 1]) != s[0] then Stuck
      else if |stack| == 1 then Closed(1)
      else Scan(s[1..], stack[..|stack| - 1]).After(1)
    else
      Scan(s[1..], stack).After(1)
  }

  /** Scanning piece by piece with the stack carried over is scanning the whole. */
  lemma {:induction false} ScanConcat(u: string, v: string, stack: seq<char>)
    ensures Scan(u + v, stack) ==
            match Scan(u, stack)
            case Open(st) => Scan(v, st).After(|u|)
            case o => o
    decreases |u|
  {
    if u == "" {
      assert u + v == v;
    } else {
      assert (u + v)[0] == u[0] && (u + v)[1..] == u[1..] + v;
      if IsOpener(u[0]) {
        ScanConcat(u[1..], v, stack + [u[0]]);
      } else if IsCloser(u[0]) {
        if |stack| > 1 {
          ScanConcat(u[1..], v, stack[..|stack| - 1]);
        }
      } else {
        ScanConcat(u[1..], v, stack);
      }
    }
  }

  lemma {:induction false} ScanKeepsStackNonEmpty(s: string, stack: seq<char>)
    requires stack != []
    ensures Scan(s, stack).Open? ==> Scan(s, stack).stack != []
    ensures Scan(s, stack).Closed? ==> 0 < Scan(s, stack).length <= |s|
    decreases |s|
  {
    if s != "" {
      if IsOpener(s[0]) {
        ScanKeepsStackNonEmpty(s[1..], stack + [s[0]]);
      } else if IsCloser(s[0]) {
        if |stack| > 1 {
          ScanKeepsStackNonEmpty(s[1..], stack[..|stack| - 1]);
        }
      } else {
        ScanKeepsStackNonEmpty(s[1..], stack);
      }
    }
  }

  lemma {:induction false} ConcatAssociates(a: string, b: string, c: string, d: string, e: string)
    ensures (a + (b + (c + d))) + e == a + (b + (c + (d + e)))
  {
  }

  /** One step of the scan. */
  lemma {:induction false} ScanCons(c: char, s: string, stack: seq<char>)
    ensures Scan([c] + s, stack) ==
            if IsOpener(c) then Scan(s, stack + [c]).After(1)
            else if !IsCloser(c) then Scan(s, stack).After(1)
            else if stack == [] || Flip(stack[|stack| - 1]) != c then Stuck
            else if |stack| == 1 then Closed(1)
            else Scan(s, stack[..|stack| - 1]).After(1)
  {
    assert ([c] + s)[1..] == s;
  }

  /** A balanced word leaves every non-empty stack as it was. */
  lemma {:induction false} ScanBalanced(w: Word, stack: seq<char>)
    requires w.WellFormed() && stack != []
    ensures Scan(w.Yield(), stack) == Open(stack)
  {
    match w
    case Empty =>
    case Text(c, rest) =>
      ScanBalanced(rest, stack);
      ScanCons(c, rest.Yield(), stack);
    case Group(open, inner, rest) =>
      var pushed := stack + [open];
      assert pushed[..|stack|] == stack;
      ScanBalanced(inner, pushed);
      ScanBalanced(rest, stack);
      var tail := [Flip(open)] + rest.Yield();
      ScanCons(open, inner.Yield() + tail, stack);
      ScanConcat(inner.Yield(), tail, pushed);
      ScanCons(Flip(open), rest.Yield(), pushed);
  }

  /** `s` is the balanced word `w`, the partner of the top of the stack, and `tail`. */
  ghost predicate Reads(s: string, stack: seq<char>, w: Word, tail: string)
    requires stack != []
  {
    var n := |w.Yield()| + 1;
    && w.WellFormed()
    && s == w.Yield() + ([Flip(stack[|stack| - 1])] + tail)
    && Scan(s, stack) == if |stack| == 1 then Closed(n) else Scan(tail, stack[..|stack| - 1]).After(n)
  }

  /**
   A scan that empties its stack reads a balanced word, then the partner of the
   top of the stack, then does the same with what is left of the stack.
   */
  lemma {:induction false} ScanClosed(s: string, stack: seq<char>) returns (w: Word, tail: string)
    requires stack != [] && Scan(s, stack).Closed?
    ensures Reads(s, stack, w, tail)
    decreases |s|
  {
    if IsOpener(s[0]) {
      var pushed := stack + [s[0]];
      var inner, middle := ScanClosed(s[1..], pushed);
      assert pushed[..|stack|] == stack;
      var rest;
      rest, tail := ScanClosed(middle, stack);
      w := Group(s[0], inner, rest);
      var end := [Flip(stack[|stack| - 1])] + tail;
      assert s == [s[0]] + s[1..];
      assert s == w.Yield() + end;
    } else if IsCloser(s[0]) {
      w, tail := Empty, s[1..];
    } else {
      var rest;
      rest, tail := ScanClosed(s[1..], stack);
      w := Text(s[0], rest);
      assert s == [s[0]] + s[1..];
    }
  }

  /**
   From an opening bracket, the scan closes exactly when some non-empty prefix
   of the text is balanced, and then at the end of the shortest one.
   */
  lemma {:induction false} ScanFindsShortest(s: string)
    requires s != "" && IsOpener(s[0])
    ensures Scan(s, []).Closed? ==>
              var n := Scan(s, []).length;
              0 < n <= |s| && Balanced(s[..n]) && s[n - 1] == Flip(s[0])
    ensures forall n :: 0 < n <= |s| && Balanced(s[..n]) ==>
              Scan(s, []).Closed? && Scan(s, []).length <= n
  {
    if Scan(s, []).Closed? {
      ScanClosesBalanced(s);
    }
    forall n | 0 < n <= |s| && Balanced(s[..n])
      ensures Scan(s, []).Closed? && Scan(s, []).length <= n
    {
      var w: Word :| w.WellFormed() && w.Yield() == s[..n];
      assert s == w.Yield() + s[n..];
      assert s[..n][0] == s[0];
      StartsGroup(w);
      BalancedPrefixCloses(w, s[n..]);
    }
  }

  lemma {:induction false} ScanClosesBalanced(s: string)
    requires s != "" && IsOpener(s[0]) && Scan(s, []).Closed?
    ensures var n := Scan(s, []).length;
            0 < n <= |s| && Balanced(s[..n]) && s[n - 1] == Flip(s[0])
  {
    assert [] + [s[0]] == [s[0]];
    assert s == [s[0]] + s[1..];
    ScanCons(s[0], s[1..], []);
    var inner, tail := ScanClosed(s[1..], [s[0]]);
    var w := Group(s[0], inner, Empty);
    assert s == w.Yield() + tail;
    assert w.WellFormed() && w.Yield() == s[..|w.Yield()|];
  }

  lemma {:induction false} GroupCloses(open: char, inner: Word, tail: string)
    requires IsOpener(open) && inner.WellFormed()
    ensures Scan([open] + (inner.Yield() + ([Flip(open)] + tail)), []) == Closed(|inner.Yield()| + 2)
  {
    var rest := [Flip(open)] + tail;
    assert [] + [open] == [open];
    ScanCons(open, inner.Yield() + rest, []);
    ScanBalanced(inner, [open]);
    ScanConcat(inner.Yield(), rest, [open]);
    ScanCons(Flip(open), tail, [open]);
  }

  lemma {:induction false} StartsGroup(w: Word)
    requires w.WellFormed() && w.Yield() != "" && IsOpener(w.Yield()[0])
    ensures w.Group?
  {
  }

  lemma {:induction false} BalancedPrefixCloses(w: Word, tail: string)
    requires w.WellFormed() && w.Group?
    ensures Scan(w.Yield() + tail, []).Closed? && Scan(w.Yield() + tail, []).length <= |w.Yield()|
  {
    ConcatAssociates([w.open], w.inner.Yield(), [Flip(w.open)], w.rest.Yield(), tail);
    GroupCloses(w.open, w.inner, w.rest.Yield() + tail);
  }

  /** Cutting a balanced suffix off a balanced word leaves a balanced word. */
  lemma {:induction false} BalancedPrefix(u: string, v: string)
    requires Balanced(u + v) && Balanced(v)
    ensures Balanced(u)
  {
    var base := ['('];
    var whole: Word :| whole.WellFormed() && whole.Yield() == u + v;
    var tail: Word :| tail.WellFormed() && tail.Yield() == v;
    ScanBalanced(whole, base);
    ScanConcat(u, v, base);
    ScanKeepsStackNonEmpty(u, base);
    ScanBalanced(tail, Scan(u, base).stack);
    assert Scan(u, base) == Open(base);
    ScanConcat(u, [')'], base);
    var w, rest := ScanClosed(u + [')'], base);
    assert w.Yield() == (u + [')'])[..|u|] == u;
  }

  lemma {:induction false} MirrorConcat(u: string, v: string)
    ensures MirrorText(u + v) == MirrorText(v) + MirrorText(u)
  {
  }

  lemma {:induction false} MirrorInvolution(s: string)
    ensures MirrorText(MirrorText(s)) == s
  {
  }

  lemma {:induction false} AppendYield(w: Word, v: Word)
    requires w.WellFormed() && v.WellFormed()
    ensures w.Append(v).WellFormed() && w.Append(v).Yield() == w.Yield() + v.Yield()
  {
    match w
    case Empty =>
    case Text(_, rest) => AppendYield(rest, v);
    case Group(open, inner, rest) =>
      AppendYield(rest, v);
      ConcatAssociates([open], inner.Yield(), [Flip(open)], rest.Yield(), v.Yield());
  }

  lemma {:induction false} MirrorGroup(open: char, inner: string, rest: string)
    requires IsOpener(open)
    ensures MirrorText([open] + (inner + ([Flip(open)] + rest))) ==
            MirrorText(rest) + ([open] + (MirrorText(inner) + ([Flip(open)] + "")))
  {
    var first, close := [open], [Flip(open)];
    assert MirrorText(first) == close && MirrorText(close) == first;
    MirrorConcat(first, inner + (close + rest));
    MirrorConcat(inner, close + rest);
    MirrorConcat(close, rest);
    assert first + "" == first && close + "" == close;
  }

  lemma {:induction false} MirrorYield(w: Word)
    requires w.WellFormed()
    ensures w.Mirror().WellFormed() && w.Mirror().Yield() == MirrorText(w.Yield())
  {
    match w
    case Empty =>
    case Text(c, rest) =>
      MirrorYield(rest);
      AppendYield(rest.Mirror(), Text(c, Empty));
      assert w.Yield()[1..] == rest.Yield();
    case Group(open, inner, rest) =>
      MirrorYield(inner);
      MirrorYield(rest);
      AppendYield(rest.Mirror(), Group(open, inner.Mirror(), Empty));
      MirrorGroup(open, inner.Yield(), rest.Yield());
  }

  /** Reading a text backwards does not change whether it is balanced. */
  lemma {:induction false} MirrorBalanced(s: string)
    ensures Balanced(s) <==> Balanced(MirrorText(s))
  {
    MirrorInvolution(s);
    if Balanced(s) {
      var w: Word :| w.WellFormed() && w.Yield() == s;
      MirrorYield(w);
    }
    if Balanced(MirrorText(s)) {
      var w: Word :| w.WellFormed() && w.Yield() == MirrorText(s);
      MirrorYield(w);
    }
  }
}
