/**
 A message that comes in two reads. The state is kept between calls, but the
 cursors are not, and each call reads the terminator behind its text. So a call
 that ends in the middle of a request can only be resumed at one place.
 */
module HttpResume {
  import opened Options
  import opened HttpParser
  import opened HttpTheorems

  // ---------------------------------------------------------------- what a call leaves behind

  /** Where reading a text stops before its terminator: the parser, what is not read, and whether it threw. */
  datatype Stop = Stop(m: Parser, rest: string, threw: bool)

  function Drive(eat: Machine, m: Parser, a: string): Stop
    decreases |a|
  {
    if a == "" || m.state in {Invalid, Complete, Body} then Stop(m, a, false)
    else
      match eat(m, a[0])
      case None => Stop(m, a, true)
      case Some(next) => Drive(eat, next, a[1..])
  }

  /** The parser a later call starts from. */
  function Resume(f: Final): Parser {
    Parser(f.state, f.request, "", 0)
  }

  /** Whatever comes next, reading it in a second call is reading it in the first. */
  ghost predicate Resumable(eat: Machine, r: Request, a: string) {
    forall b :: Parse(eat, Resume(Parse(eat, Fresh(r), a)), b) == Parse(eat, Fresh(r), a + b)
  }

  /** The call is over, or it has just read the blank behind the method. */
  predicate CleanStop(s: Stop) {
    !s.threw && (s.m.state in {Invalid, Complete} || (s.m.state == InUrl && s.m.line == ""))
  }

  /** What is true of every parser that a fresh one reaches. */
  predicate Sound(m: Parser) {
    && m.state != BeforeUrl && (m.state == InUrl ==> m.cut == 0)
    && (m.state in {ParamKey, BeforeParamValue, ParamValue, Protocol, HeaderKey, HeaderValue} ==> m.line != "")
    && (m.state in {BeforeParamValue, ParamValue, HeaderValue} ==> m.cut < |m.line|)
  }

  lemma {:induction false} StepIsSound(atoi: string -> int, m: Parser, c: char)
    requires Sound(m) && m.state !in {Invalid, Complete, Body}
    ensures var n := Eat(atoi, m, c);
      if n == None then m.state == HeaderValue && c == CR else Sound(n.value)
  {
  }

  lemma {:induction false} DriveIsSound(atoi: string -> int, eat: Machine, m: Parser, a: string)
    requires IsSwitch(eat, atoi) && Sound(m)
    ensures Sound(Drive(eat, m, a).m)
    ensures Drive(eat, m, a).threw ==> Drive(eat, m, a).m.state == HeaderValue
    decreases |a|
  {
    if a != "" && m.state !in {Invalid, Complete, Body} {
      StepIsSound(atoi, m, a[0]);
      if eat(m, a[0]).Some? {
        DriveIsSound(atoi, eat, eat(m, a[0]).value, a[1..]);
      }
    }
  }

  /** A call goes on from where reading stops. */
  lemma {:induction false} DriveParses(eat: Machine, m: Parser, a: string, b: string)
    ensures var s := Drive(eat, m, a);
      if s.threw then s.rest != "" && Parse(eat, m, a + b) == Final(ThrowState(s.m, s.rest[0]), s.m.request, true)
      else
        && (s.rest != "" ==> s.m.state in {Invalid, Complete, Body})
        && Parse(eat, m, a + b) == Parse(eat, s.m, s.rest + b)
    decreases |a|
  {
    if a == "" || m.state in {Invalid, Complete, Body} {
      assert a == "" ==> a + b == "" + b;
    } else {
      assert (a + b)[0] == a[0] && (a + b)[1..] == a[1..] + b;
      if eat(m, a[0]).Some? {
        DriveParses(eat, eat(m, a[0]).value, a[1..], b);
      }
    }
  }

  // ---------------------------------------------------------------- what tells two calls from one

  /** A one-character value that the map does not have under the empty key. */
  function NewValue(m: map<string, string>): char {
    if "" in m && m[""] == "v" then 'w' else 'v'
  }

  /** Text that is read differently by the parser and by the call after it. */
  function Telling(m: Parser): string {
    match m.state
    case Start => "A "
    case Method => " "
    case InUrl => " "
    case BeforeParamKey => "="
    case ParamKey => ['=', NewValue(m.request.params), ' ']
    case BeforeParamValue => " "
    case ParamValue => " "
    case BeforeProtocol => "/"
    case Protocol => "/"
    case BeforeVersion => ['1', CR, LF]
    case Version => [CR, LF]
    case HeaderKey => [':', ' ', NewValue(m.request.headers), CR]
    case HeaderValue => ['x', CR]
    case WhenCr => [LF]
    case CrLf => ":"
    case CrLfCr => [LF]
    case _ => "x"
  }

  /** The parser that a call leaves when it ends in the middle of a request. */
  function Left(atoi: string -> int, m: Parser): Parser
    requires m.state !in {Invalid, Complete, Body}
  {
    var n := Eat(atoi, m, NUL).value;
    Parser(n.state, n.request, "", 0)
  }

  lemma {:induction false} One(atoi: string -> int, eat: Machine, m: Parser, c: char)
    requires IsSwitch(eat, atoi)
    requires m.state !in {Invalid, Complete, Body}
    ensures Parse(eat, m, [c]) ==
            match Eat(atoi, m, c)
            case None => Final(ThrowState(m, c), m.request, true)
            case Some(n) => Parse(eat, n, "")
  {
    assert [c][1..] == "";
  }

  lemma {:induction false} Nothing(atoi: string -> int, eat: Machine, m: Parser)
    requires IsSwitch(eat, atoi)
    requires m.state !in {Invalid, Complete, Body}
    ensures Parse(eat, m, "") == Final(Eat(atoi, m, NUL).value.state, Eat(atoi, m, NUL).value.request, false)
  {
  }

  /** One character in the middle of a request, and the terminator. */
  lemma {:induction false} OneThenNothing(atoi: string -> int, eat: Machine, m: Parser, c: char, n: Parser)
    requires IsSwitch(eat, atoi)
    requires {m.state, n.state} !! {Invalid, Complete, Body} && Eat(atoi, m, c) == Some(n)
    ensures Parse(eat, m, [c]) == Final(Eat(atoi, n, NUL).value.state, Eat(atoi, n, NUL).value.request, false)
  {
    One(atoi, eat, m, c);
    Nothing(atoi, eat, n);
  }

  /** The two calls read the text differently. */
  ghost predicate Tells(atoi: string -> int, eat: Machine, m: Parser)
    requires m.state !in {Invalid, Complete, Body}
  {
    Parse(eat, Left(atoi, m), Telling(m)) != Parse(eat, m, Telling(m))
  }

  lemma {:induction false} TellsStart(atoi: string -> int, eat: Machine, m: Parser)
    requires IsSwitch(eat, atoi)
    requires m.state == Start
    ensures Tells(atoi, eat, m)
  {
    var n := Parser(Method, m.request, m.line + ['A'], m.cut);
    assert Telling(m) == ['A'] + [' '];
    Step(atoi, eat, m, 'A', n, [' ']);
    OneThenNothing(atoi, eat, n, ' ', Parser(InUrl, m.request.(verb := n.line), "", 0));
  }

  lemma {:induction false} TellsVersion(atoi: string -> int, eat: Machine, m: Parser)
    requires IsSwitch(eat, atoi)
    requires m.state == BeforeVersion || m.state == Version
    ensures Tells(atoi, eat, m)
  {
    if m.state == Version {
      VersionEnds(atoi, eat, m);
    } else {
      var n := Parser(Version, m.request, m.line + ['1'], m.cut);
      assert Telling(m) == ['1'] + [CR, LF];
      Step(atoi, eat, m, '1', n, [CR, LF]);
      VersionEnds(atoi, eat, n);
    }
  }

  lemma {:induction false} LineEnds(atoi: string -> int, eat: Machine, m: Parser)
    requires IsSwitch(eat, atoi)
    requires m.state == WhenCr
    ensures Parse(eat, m, [LF]).state == HeaderKey
  {
    OneThenNothing(atoi, eat, m, LF, Parser(CrLf, m.request, "", 0));
  }

  lemma {:induction false} VersionEnds(atoi: string -> int, eat: Machine, m: Parser)
    requires IsSwitch(eat, atoi)
    requires m.state == Version
    ensures Parse(eat, m, [CR, LF]).state == HeaderKey
  {
    var n := Parser(WhenCr, m.request.(version := m.line), "", 0);
    assert [CR, LF] == [CR] + [LF];
    Step(atoi, eat, m, CR, n, [LF]);
    LineEnds(atoi, eat, n);
  }

  /** One character is enough where the terminator refuses the request. */
  lemma {:induction false} TellsRefusal(atoi: string -> int, eat: Machine, m: Parser)
    requires IsSwitch(eat, atoi)
    requires m.state in {Method, WhenCr, CrLfCr}
    ensures Tells(atoi, eat, m)
  {
    var c := Telling(m)[0];
    assert Telling(m) == [c];
    if m.state == CrLfCr {
      One(atoi, eat, m, c);
    } else {
      OneThenNothing(atoi, eat, m, c, Eat(atoi, m, c).value);
    }
  }

  /** One character is enough where the terminator is taken for the first of a slice. */
  lemma {:induction false} TellsFirst(atoi: string -> int, eat: Machine, m: Parser)
    requires IsSwitch(eat, atoi)
    requires m.state in {BeforeParamKey, BeforeProtocol, CrLf}
    ensures Tells(atoi, eat, m)
  {
    var c, n := Telling(m)[0], Left(atoi, m);
    assert Telling(m) == [c];
    OneThenNothing(atoi, eat, m, c, Eat(atoi, m, c).value);
    OneThenNothing(atoi, eat, n, c, Eat(atoi, n, c).value);
  }

  /** One character is enough to store a slice that has lost its beginning. */
  lemma {:induction false} TellsLoss(atoi: string -> int, eat: Machine, m: Parser)
    requires IsSwitch(eat, atoi)
    requires Sound(m) && m.line != "" && m.state in {InUrl, BeforeParamValue, ParamValue, Protocol}
    ensures Tells(atoi, eat, m)
  {
    var c := Telling(m)[0];
    One(atoi, eat, m, c);
    One(atoi, eat, Left(atoi, m), c);
    if m.state in {InUrl, Protocol} {
      Nothing(atoi, eat, Eat(atoi, m, c).value);
      Nothing(atoi, eat, Eat(atoi, Left(atoi, m), c).value);
    }
  }

  lemma {:induction false} TellsHeaderValue(atoi: string -> int, eat: Machine, m: Parser)
    requires IsSwitch(eat, atoi)
    requires Sound(m) && m.state == HeaderValue
    ensures Tells(atoi, eat, m)
  {
    assert Telling(m) == ['x'] + [CR];
    var m1, n := m.(line := m.line + ['x']), Left(atoi, m);
    Step(atoi, eat, m, 'x', m1, [CR]);
    One(atoi, eat, m1, CR);
    var n1 := n.(line := n.line + ['x']);
    Step(atoi, eat, n, 'x', n1, [CR]);
    One(atoi, eat, n1, CR);
    Nothing(atoi, eat, Eat(atoi, m1, CR).value);
  }

  lemma {:induction false} TellsKey(atoi: string -> int, eat: Machine, m: Parser)
    requires IsSwitch(eat, atoi)
    requires Sound(m) && m.state in {ParamKey, HeaderKey}
    ensures Tells(atoi, eat, m)
  {
    if m.state == ParamKey {
      KeyStored(atoi, eat, m);
      KeyStored(atoi, eat, Left(atoi, m));
      MapsDiffer(m.request.params, m.line, [NewValue(m.request.params)]);
    } else {
      HeaderStored(atoi, eat, m);
      HeaderStored(atoi, eat, Left(atoi, m));
      MapsDiffer(m.request.headers, m.line, [NewValue(m.request.headers)]);
    }
  }

  lemma {:induction false} MapsDiffer(m: map<string, string>, key: string, value: string)
    requires key != "" && !("" in m && m[""] == value)
    ensures m[key := value] != m["" := value]
  {
    assert "" in m["" := value] && m["" := value][""] == value;
  }

  lemma {:induction false} ParamStored(atoi: string -> int, eat: Machine, r: Request, line: string, cut: nat)
    requires IsSwitch(eat, atoi)
    requires cut + 1 <= |line|
    ensures Parse(eat, Parser(ParamValue, r, line, cut), [' ']).request ==
            r.(params := r.params[line[..cut] := line[cut + 1..]])
  {
    var n := Parser(BeforeProtocol, r.(params := r.params[line[..cut] := line[cut + 1..]]), "", 0);
    OneThenNothing(atoi, eat, Parser(ParamValue, r, line, cut), ' ', n);
  }

  lemma {:induction false} KeyStored(atoi: string -> int, eat: Machine, m: Parser)
    requires IsSwitch(eat, atoi)
    requires m.state == ParamKey
    ensures var v := NewValue(m.request.params);
      Parse(eat, m, ['=', v, ' ']).request.params == m.request.params[m.line := [v]]
  {
    var v := NewValue(m.request.params);
    var m1 := Parser(BeforeParamValue, m.request, m.line + ['='], |m.line|);
    var m2 := Parser(ParamValue, m.request, m.line + ['='] + [v], |m.line|);
    assert ['=', v, ' '] == ['='] + ([v] + [' ']);
    Step(atoi, eat, m, '=', m1, [v] + [' ']);
    Step(atoi, eat, m1, v, m2, [' ']);
    assert m2.line[..m2.cut] == m.line && m2.line[m2.cut + 1..] == [v];
    ParamStored(atoi, eat, m.request, m2.line, m2.cut);
  }

  lemma {:induction false} HeaderStored(atoi: string -> int, eat: Machine, m: Parser)
    requires IsSwitch(eat, atoi)
    requires m.state == HeaderKey
    ensures var v := NewValue(m.request.headers);
      Parse(eat, m, [':', ' ', v, CR]).request.headers == m.request.headers[m.line := [v]]
  {
    var v := NewValue(m.request.headers);
    assert [':', ' ', v, CR] == [':'] + [' ', v, CR];
    Step(atoi, eat, m, ':', Parser(HeaderValue, m.request, m.line + [':'], |m.line|), [' ', v, CR]);
    ValueStored(atoi, eat, m.request, m.line, v);
  }

  lemma {:induction false} ValueStored(atoi: string -> int, eat: Machine, r: Request, key: string, v: char)
    requires IsSwitch(eat, atoi)
    requires v != CR
    ensures Parse(eat, Parser(HeaderValue, r, key + [':'], |key|), [' ', v, CR]).request.headers ==
            r.headers[key := [v]]
  {
    var line := key + [':'] + [' ', v];
    assert [' ', v, CR] == [' ', v] + [CR] && AllStay(HeaderValue, [' ', v]);
    SkipRun(atoi, eat, Parser(HeaderValue, r, key + [':'], |key|), [' ', v], [CR]);
    assert line[..|key|] == key && line[|key| + 2..] == [v];
    LineStored(atoi, eat, r, line, |key|);
  }

  lemma {:induction false} LineStored(atoi: string -> int, eat: Machine, r: Request, line: string, cut: nat)
    requires IsSwitch(eat, atoi)
    requires cut + 2 <= |line|
    ensures Parse(eat, Parser(HeaderValue, r, line, cut), [CR]).request ==
            r.(headers := r.headers[line[..cut] := line[cut + 2..]])
  {
    var n := Parser(WhenCr, r.(headers := r.headers[line[..cut] := line[cut + 2..]]), "", 0);
    OneThenNothing(atoi, eat, Parser(HeaderValue, r, line, cut), CR, n);
  }

  lemma {:induction false} Tell(atoi: string -> int, eat: Machine, m: Parser)
    requires IsSwitch(eat, atoi)
    requires Sound(m) && m.state !in {Invalid, Complete, Body} && !(m.state == InUrl && m.line == "")
    ensures Tells(atoi, eat, m)
  {
    match m.state
    case Start => TellsStart(atoi, eat, m);
    case BeforeVersion => TellsVersion(atoi, eat, m);
    case Version => TellsVersion(atoi, eat, m);
    case Method => TellsRefusal(atoi, eat, m);
    case BeforeParamKey => TellsFirst(atoi, eat, m);
    case BeforeProtocol => TellsFirst(atoi, eat, m);
    case WhenCr => TellsRefusal(atoi, eat, m);
    case CrLf => TellsFirst(atoi, eat, m);
    case CrLfCr => TellsRefusal(atoi, eat, m);
    case InUrl => TellsLoss(atoi, eat, m);
    case BeforeParamValue => TellsLoss(atoi, eat, m);
    case ParamValue => TellsLoss(atoi, eat, m);
    case Protocol => TellsLoss(atoi, eat, m);
    case HeaderValue => TellsHeaderValue(atoi, eat, m);
    case ParamKey => TellsKey(atoi, eat, m);
    case HeaderKey => TellsKey(atoi, eat, m);
  }

  // ---------------------------------------------------------------- the main result

  lemma {:induction false} CleanResumes(atoi: string -> int, eat: Machine, r: Request, a: string, b: string)
    requires IsSwitch(eat, atoi)
    requires CleanStop(Drive(eat, Fresh(r), a))
    ensures Parse(eat, Resume(Parse(eat, Fresh(r), a)), b) == Parse(eat, Fresh(r), a + b)
  {
    var s := Drive(eat, Fresh(r), a);
    DriveIsSound(atoi, eat, Fresh(r), a);
    DriveParses(eat, Fresh(r), a, "");
    DriveParses(eat, Fresh(r), a, b);
    assert a + "" == a && s.rest + "" == s.rest;
    if s.m.state == InUrl {
      Nothing(atoi, eat, s.m);
      assert Resume(Parse(eat, Fresh(r), a)) == s.m && s.rest + b == b;
    }
  }

  /** Text that shows that a call did not stop cleanly. */
  function Witness(s: Stop): string {
    if s.threw then "" else Telling(s.m)
  }

  lemma {:induction false} OthersDoNot(atoi: string -> int, eat: Machine, r: Request, a: string)
    requires IsSwitch(eat, atoi)
    requires !CleanStop(Drive(eat, Fresh(r), a))
    ensures var b := Witness(Drive(eat, Fresh(r), a));
      Parse(eat, Resume(Parse(eat, Fresh(r), a)), b) != Parse(eat, Fresh(r), a + b)
  {
    var s := Drive(eat, Fresh(r), a);
    var b := Witness(s);
    DriveIsSound(atoi, eat, Fresh(r), a);
    DriveParses(eat, Fresh(r), a, "");
    DriveParses(eat, Fresh(r), a, b);
    assert a + "" == a && s.rest + "" == s.rest;
    if s.threw {
      Nothing(atoi, eat, Resume(Parse(eat, Fresh(r), a)));
    } else if s.m.state == Body {
      assert |s.rest + b| == |s.rest| + 1;
    } else {
      assert s.rest + b == b;
      Nothing(atoi, eat, s.m);
      assert Resume(Parse(eat, Fresh(r), a)) == Left(atoi, s.m);
      Tell(atoi, eat, s.m);
    }
  }

  /**
   A text can be cut off, whatever comes next, exactly when the request is over at
   its end or the cut is right behind the blank after the method.
   */
  lemma {:induction false} ResumesExactly(atoi: string -> int, eat: Machine, r: Request, a: string)
    requires IsSwitch(eat, atoi)
    ensures Resumable(eat, r, a) <==> CleanStop(Drive(eat, Fresh(r), a))
  {
    if CleanStop(Drive(eat, Fresh(r), a)) {
      forall b
        ensures Parse(eat, Resume(Parse(eat, Fresh(r), a)), b) == Parse(eat, Fresh(r), a + b)
      {
        CleanResumes(atoi, eat, r, a, b);
      }
    } else {
      OthersDoNot(atoi, eat, r, a);
    }
  }

  // ---------------------------------------------------------------- in terms of the text

  predicate IsMethod(gap: string, verb: string, sep: char) {
    AllStay(Start, gap) && |verb| > 0 && AllStay(Method, verb) && Blank(sep)
  }

  /** A method with the blank behind it. */
  ghost predicate BehindMethod(a: string) {
    exists gap, verb, sep :: IsMethod(gap, verb, sep) && a == gap + verb + [sep]
  }

  lemma {:induction false} DriveSnoc(eat: Machine, m: Parser, a: string, c: char)
    ensures var s := Drive(eat, m, a);
      Drive(eat, m, a + [c]) ==
      if s.threw || s.m.state in {Invalid, Complete, Body} then s.(rest := s.rest + [c])
      else match eat(s.m, c) case None => Stop(s.m, [c], true) case Some(n) => Stop(n, "", false)
    decreases |a|
  {
    if a == "" {
      assert a + [c] == [c] && [c][1..] == "";
    } else if m.state !in {Invalid, Complete, Body} {
      assert (a + [c])[0] == a[0] && (a + [c])[1..] == a[1..] + [c];
      if eat(m, a[0]).Some? {
        DriveSnoc(eat, eat(m, a[0]).value, a[1..], c);
      }
    }
  }

  /** What has been read when the method is not behind yet, or just so. */
  lemma {:induction false} MethodRead(atoi: string -> int, eat: Machine, r: Request, a: string)
      returns (gap: string, verb: string)
    requires IsSwitch(eat, atoi)
    ensures var s := Drive(eat, Fresh(r), a);
      && (s.m.state in {Start, Method} ==>
            AllStay(Start, gap) && AllStay(Method, verb) && a == gap + verb && s.rest == "" && !s.threw)
      && (s.m.state == Start ==> verb == "") && (s.m.state == Method ==> verb != "")
      && (s.m.state == InUrl && s.m.line == "" && s.rest == "" ==> BehindMethod(a))
      && (s.m.state !in {Invalid, Complete, Body} && !s.threw ==> s.rest == "")
    decreases |a|
  {
    gap, verb := "", "";
    if a != "" {
      var before, c := a[..|a| - 1], a[|a| - 1];
      assert a == before + [c];
      var g, v := MethodRead(atoi, eat, r, before);
      DriveSnoc(eat, Fresh(r), before, c);
      var s := Drive(eat, Fresh(r), before);
      if s.m.state == Start && Gap(c) {
        gap, verb := before + [c], "";
      } else if s.m.state in {Start, Method} && Upper(c) {
        gap, verb := g, v + [c];
      } else if s.m.state == Method && Blank(c) {
        assert a == g + v + [c];
      }
      if !s.threw && s.m.state !in {Invalid, Complete, Body} {
        assert eat(s.m, c) == Eat(atoi, s.m, c);
      }
    }
  }

  lemma {:induction false} MethodThen(atoi: string -> int, eat: Machine, r: Request, a: string, gap: string,
                                      verb: string, sep: char, b: string)
    requires IsSwitch(eat, atoi)
    requires IsMethod(gap, verb, sep) && a == gap + verb + [sep]
    ensures Parse(eat, Fresh(r), a + b) == Parse(eat, Parser(InUrl, r.(verb := gap + verb), "", 0), b)
  {
    assert a + b == gap + (verb + ([sep] + b));
    SkipRun(atoi, eat, Fresh(r), gap, verb + ([sep] + b));
    assert "" + gap == gap;
    ReadField(atoi, eat, Parser(Start, r, gap, 0), Method, verb, [sep] + b);
    Step(atoi, eat, Parser(Method, r, gap + verb, 0), sep, Parser(InUrl, r.(verb := gap + verb), "", 0), b);
  }

  /** A text after which the parser is as a later call would start it. */
  lemma {:induction false} StartsAnew(eat: Machine, m: Parser, a: string, n: Parser)
    requires forall b {:trigger a + b} :: Parse(eat, m, a + b) == Parse(eat, n, b)
    requires Parse(eat, n, "") == Final(n.state, n.request, false) && n.line == "" && n.cut == 0
    ensures forall b :: Parse(eat, Resume(Parse(eat, m, a)), b) == Parse(eat, m, a + b)
  {
    assert a + "" == a;
  }

  lemma {:induction false} MethodResumes(atoi: string -> int, eat: Machine, r: Request, a: string)
    requires IsSwitch(eat, atoi)
    requires BehindMethod(a)
    ensures Resumable(eat, r, a)
  {
    var gap, verb, sep :| IsMethod(gap, verb, sep) && a == gap + verb + [sep];
    var n := Parser(InUrl, r.(verb := gap + verb), "", 0);
    forall b {:trigger a + b}
      ensures Parse(eat, Fresh(r), a + b) == Parse(eat, n, b)
    {
      MethodThen(atoi, eat, r, a, gap, verb, sep, b);
    }
    Nothing(atoi, eat, n);
    StartsAnew(eat, Fresh(r), a, n);
  }

  // ---------------------------------------------------------------- texts that are over

  /** No continuation completes a request or throws. */
  ghost predicate Refused(eat: Machine, r: Request, a: string) {
    forall b :: !Ends(Parse(eat, Fresh(r), a + b))
  }

  /** The text begins with a whole request that wants no body. */
  ghost predicate Whole(atoi: string -> int, r: Request, a: string) {
    exists w, rest :: WellFormed(w) && a == Print(w, rest) && !TakesBody(atoi, w, r.headers)
  }

  /** A character that brings a request closer to its end. */
  function Way(state: State): char {
    match state
    case Start => 'A'
    case Method => ' '
    case InUrl => ' '
    case BeforeParamKey => 'a'
    case ParamKey => '='
    case BeforeParamValue => 'a'
    case ParamValue => ' '
    case BeforeProtocol => 'A'
    case Protocol => '/'
    case BeforeVersion => '1'
    case Version => CR
    case HeaderKey => ':'
    case HeaderValue => CR
    case CrLf => CR
    case _ => LF
  }

  function Distance(state: State): nat {
    match state
    case Start => 13
    case Method => 12
    case BeforeParamKey => 11
    case ParamKey => 10
    case BeforeParamValue => 9
    case InUrl => 8
    case ParamValue => 8
    case BeforeProtocol => 7
    case Protocol => 6
    case BeforeVersion => 5
    case Version => 4
    case HeaderKey => 4
    case HeaderValue => 3
    case WhenCr => 2
    case CrLf => 1
    case _ => 0
  }

  lemma {:induction false} WayLeads(atoi: string -> int, m: Parser)
    requires Sound(m) && m.state !in {Invalid, Complete, Body}
    ensures match Eat(atoi, m, Way(m.state))
      case None => true
      case Some(n) => n.state in {Complete, Body} || (n.state != Invalid && Distance(n.state) < Distance(m.state))
  {
  }

  /** Every request that has been begun can be ended. */
  lemma {:induction false} CanEnd(atoi: string -> int, eat: Machine, m: Parser) returns (b: string)
    requires IsSwitch(eat, atoi) && Sound(m) && m.state !in {Invalid, Complete, Body}
    ensures Ends(Parse(eat, m, b))
    decreases Distance(m.state)
  {
    var c := Way(m.state);
    WayLeads(atoi, m);
    StepIsSound(atoi, m, c);
    One(atoi, eat, m, c);
    b := [c];
    var n := Eat(atoi, m, c);
    if n.Some? && n.value.state !in {Complete, Body} {
      var rest := CanEnd(atoi, eat, n.value);
      Step(atoi, eat, m, c, n.value, rest);
      b := [c] + rest;
    }
  }

  lemma {:induction false} RefusedExactly(atoi: string -> int, eat: Machine, r: Request, a: string)
    requires IsSwitch(eat, atoi)
    ensures var s := Drive(eat, Fresh(r), a);
      Refused(eat, r, a) <==> !s.threw && s.m.state == Invalid
  {
    var s := Drive(eat, Fresh(r), a);
    DriveIsSound(atoi, eat, Fresh(r), a);
    if !s.threw && s.m.state == Invalid {
      forall b
        ensures !Ends(Parse(eat, Fresh(r), a + b))
      {
        DriveParses(eat, Fresh(r), a, b);
      }
    } else {
      var b := "";
      if !s.threw && s.m.state !in {Complete, Body} {
        b := CanEnd(atoi, eat, s.m);
      }
      DriveParses(eat, Fresh(r), a, b);
      assert s.rest == "" ==> s.rest + b == b;
      assert Ends(Parse(eat, Fresh(r), a + b));
    }
  }

  lemma {:induction false} QueryAppend(params: seq<Pair>, mark: char, rest: string, b: string)
    ensures Query(params, mark, rest) + b == Query(params, mark, rest + b)
    decreases |params|
  {
    if params != [] {
      QueryAppend(params[1..], '&', rest, b);
      var p, more := params[0], Query(params[1..], '&', rest);
      assert [mark] + (p.key + (['='] + (p.value + more))) + b == [mark] + (p.key + (['='] + (p.value + (more + b))));
    }
  }

  lemma {:induction false} LinesAppend(headers: seq<Header>, rest: string, b: string)
    ensures Lines(headers, rest) + b == Lines(headers, rest + b)
    decreases |headers|
  {
    if headers == [] {
      assert [LF] + rest + b == [LF] + (rest + b);
    } else {
      LinesAppend(headers[1..], rest, b);
      var h, more := headers[0], Lines(headers[1..], rest);
      assert [LF] + (h.key + ([':', h.gap] + (h.value + ([CR] + more)))) + b ==
             [LF] + (h.key + ([':', h.gap] + (h.value + ([CR] + (more + b)))));
    }
  }

  lemma {:induction false} TailAppend(w: Wire, rest: string, b: string)
    ensures PrintTail(w, rest) + b == PrintTail(w, rest + b)
  {
    LinesAppend(w.headers, rest, b);
    var lines := Lines(w.headers, rest);
    assert w.blanks + (w.protocol + (['/'] + (w.version + ([CR] + lines)))) + b ==
           w.blanks + (w.protocol + (['/'] + (w.version + ([CR] + (lines + b)))));
  }

  /** Text behind a request belongs to its body. */
  lemma {:induction false} PrintAppend(w: Wire, body: string, b: string)
    ensures Print(w, body) + b == Print(w, body + b)
  {
    var tail := PrintTail(w, [CR, LF] + body);
    TailAppend(w, [CR, LF] + body, b);
    QueryAppend(w.params, '?', [w.end] + tail, b);
    assert [CR, LF] + body + b == [CR, LF] + (body + b) && [w.end] + tail + b == [w.end] + (tail + b);
    var query := Query(w.params, '?', [w.end] + tail);
    assert w.gap + (w.verb + ([w.sep] + (w.url + query))) + b == w.gap + (w.verb + ([w.sep] + (w.url + (query + b))));
  }

  /** What a printed request followed by more text completes with. */
  lemma {:induction false} PrintedThen(atoi: string -> int, eat: Machine, r: Request, w: Wire, body: string, b: string)
    requires IsSwitch(eat, atoi) && WellFormed(w)
    ensures Parse(eat, Fresh(r), Print(w, body) + b) ==
            Final(Complete, Meaning(atoi, r, w, body + b), false)
  {
    PrintAppend(w, body, b);
    ParseUndoesPrint(atoi, eat, r, w, body + b);
  }

  /** A whole request that wants no body is complete, whatever follows it. */
  lemma {:induction false} WholeReads(atoi: string -> int, eat: Machine, r: Request, a: string)
      returns (done: Request)
    requires IsSwitch(eat, atoi) && Whole(atoi, r, a)
    ensures Parse(eat, Fresh(r), a + "") == Parse(eat, Fresh(r), a + "x") == Final(Complete, done, false)
  {
    var w, rest :| WellFormed(w) && a == Print(w, rest) && !TakesBody(atoi, w, r.headers);
    PrintedThen(atoi, eat, r, w, rest, "");
    PrintedThen(atoi, eat, r, w, rest, "x");
    done := ApplyHead(w, r);
  }

  lemma {:induction false} WholeIsComplete(atoi: string -> int, eat: Machine, r: Request, a: string)
    requires IsSwitch(eat, atoi) && Whole(atoi, r, a)
    ensures !Drive(eat, Fresh(r), a).threw && Drive(eat, Fresh(r), a).m.state == Complete
  {
    var s := Drive(eat, Fresh(r), a);
    var done := WholeReads(atoi, eat, r, a);
    DriveParses(eat, Fresh(r), a, "");
    DriveParses(eat, Fresh(r), a, "x");
    if s.m.state == Body {
      assert |s.rest + "x"| != |s.rest + ""|;
    } else if !s.threw && s.m.state !in {Invalid, Complete} {
      assert s.rest + "" == "";
      Nothing(atoi, eat, s.m);
      Terminator(atoi, s.m);
    }
  }

  lemma {:induction false} CompleteIsWhole(atoi: string -> int, eat: Machine, r: Request, a: string)
    requires IsSwitch(eat, atoi)
    requires !Drive(eat, Fresh(r), a).threw && Drive(eat, Fresh(r), a).m.state == Complete
    ensures Whole(atoi, r, a)
  {
    var s := Drive(eat, Fresh(r), a);
    DriveParses(eat, Fresh(r), a, "");
    DriveParses(eat, Fresh(r), a, "x");
    assert a + "" == a;
    CompletesExactly(atoi, eat, r, a);
    var w, rest :| WellFormed(w) && a == Print(w, rest);
    PrintedThen(atoi, eat, r, w, rest, "");
    PrintedThen(atoi, eat, r, w, rest, "x");
    assert |rest + "x"| != |rest + ""|;
  }

  /**
   Whatever comes next, a text can be cut off exactly behind the blank after the
   method, where nothing can save the request, or behind a whole request that wants
   no body.
   */
  lemma {:induction false} CutsExactly(atoi: string -> int, eat: Machine, r: Request, a: string)
    requires IsSwitch(eat, atoi)
    ensures Resumable(eat, r, a) <==> BehindMethod(a) || Refused(eat, r, a) || Whole(atoi, r, a)
  {
    var s := Drive(eat, Fresh(r), a);
    ResumesExactly(atoi, eat, r, a);
    RefusedExactly(atoi, eat, r, a);
    if BehindMethod(a) {
      MethodResumes(atoi, eat, r, a);
    } else if !s.threw && s.m.state == Complete {
      CompleteIsWhole(atoi, eat, r, a);
    } else {
      var gap, verb := MethodRead(atoi, eat, r, a);
      if Whole(atoi, r, a) {
        WholeIsComplete(atoi, eat, r, a);
      }
    }
  }

  // ---------------------------------------------------------------- one given continuation

  /**
   With luck a given continuation is read the same at three more places, although
   the terminator moves the state there: before a parameter that does not start
   with '=', before a protocol that does not start with '/', and before a header
   line that does not start with ':'.
   */
  lemma {:induction false} LuckyCuts(atoi: string -> int, eat: Machine, m: Parser, c: char, b: string)
    requires IsSwitch(eat, atoi)
    requires m.line == "" && m.cut == 0 && !Gap(c)
    requires || (m.state == BeforeParamKey && c != '=')
             || (m.state == BeforeProtocol && c != '/')
             || (m.state == CrLf && c != ':')
    ensures Parse(eat, Left(atoi, m), [c] + b) == Parse(eat, m, [c] + b)
  {
    var n := Parser(Left(atoi, m).state, m.request, "" + [c], 0);
    Step(atoi, eat, m, c, n, b);
    Step(atoi, eat, Left(atoi, m), c, n, b);
  }

  /** Where the terminator refuses the request the second call refuses every continuation. */
  lemma {:induction false} RefusedCuts(atoi: string -> int, eat: Machine, r: Request, a: string, b: string)
    requires IsSwitch(eat, atoi)
    requires var s := Drive(eat, Fresh(r), a);
      !s.threw && s.m.state in {Start, Method, BeforeVersion, Version, WhenCr, CrLfCr}
    ensures var f := Parse(eat, Fresh(r), a);
      f.state == Invalid && Parse(eat, Resume(f), b) == Final(Invalid, f.request, false)
  {
    DriveIsSound(atoi, eat, Fresh(r), a);
    DriveParses(eat, Fresh(r), a, "");
    var s := Drive(eat, Fresh(r), a);
    assert a + "" == a && s.rest + "" == s.rest;
    Nothing(atoi, eat, s.m);
  }

  lemma {:induction false} HeadLeaves(atoi: string -> int, eat: Machine, r: Request, w: Wire)
    requires IsSwitch(eat, atoi)
    requires WellFormed(w)
    ensures Parse(eat, Fresh(r), PrintHead(w, "")) == Final(HeaderKey, ApplyHead(w, r), false)
  {
    ReadHead(atoi, eat, r, w, "");
    Nothing(atoi, eat, Parser(CrLf, ApplyHead(w, r), "", 0));
  }

  /** A request of which only the empty line comes in a second read never completes: it stays in a header line. */
  lemma {:induction false} EmptyLineIsLost(atoi: string -> int, eat: Machine, r: Request, w: Wire)
    requires IsSwitch(eat, atoi)
    requires WellFormed(w)
    ensures var f := Parse(eat, Fresh(r), PrintHead(w, ""));
      f.state == HeaderKey && !f.threw && Parse(eat, Resume(f), [CR, LF]).state == HeaderKey
    ensures Parse(eat, Fresh(r), PrintHead(w, [CR, LF])).state == Complete
  {
    HeadLeaves(atoi, eat, r, w);
    StaysInKey(atoi, eat, ApplyHead(w, r));
    assert [CR, LF] + "" == [CR, LF];
    ParseUndoesPrint(atoi, eat, r, w, "");
  }

  lemma {:induction false} StaysInKey(atoi: string -> int, eat: Machine, r: Request)
    requires IsSwitch(eat, atoi)
    ensures Parse(eat, Parser(HeaderKey, r, "", 0), [CR, LF]).state == HeaderKey
  {
    assert AllStay(HeaderKey, [CR, LF]) && [CR, LF] + "" == [CR, LF];
    SkipRun(atoi, eat, Parser(HeaderKey, r, "", 0), [CR, LF], "");
    Nothing(atoi, eat, Parser(HeaderKey, r, "" + [CR, LF], 0));
  }

  /** For example the request "GET / RTSP/1.0" without headers. */
  lemma {:induction false} SplitRequest(atoi: string -> int, eat: Machine, r: Request)
    requires IsSwitch(eat, atoi)
    ensures var f := Parse(eat, Fresh(r), "GET / RTSP/1.0\r\n");
      f.state == HeaderKey && Parse(eat, Resume(f), "\r\n").state == HeaderKey
    ensures Parse(eat, Fresh(r), "GET / RTSP/1.0\r\n" + "\r\n").state == Complete
  {
    var w := Wire("", "GET", ' ', "/", [], ' ', "", "RTSP", "1.0", []);
    RequestLinePrinted(w, "");
    RequestLinePrinted(w, [CR, LF]);
    assert "GET / RTSP/1.0\r\n" + "" == "GET / RTSP/1.0\r\n" && [CR, LF] == "\r\n";
    RequestLineIsWellFormed(w);
    EmptyLineIsLost(atoi, eat, r, w);
  }
}
