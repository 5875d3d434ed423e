/**
 The request parser: a machine that reads one character at a time and cuts
 slices out of the message with three cursors. `Parse` is the same machine
 without cursors: it keeps the text of the slice it is in.
 */
module HttpParser {
  import Bytes
  import opened Options

  datatype State =
    | Invalid
    | Start | Method
    | BeforeUrl | InUrl
    | BeforeParamKey | ParamKey | BeforeParamValue | ParamValue
    | BeforeProtocol | Protocol
    | BeforeVersion | Version
    | HeaderKey | HeaderValue
    | WhenCr | CrLf | CrLfCr
    | Body | Complete

  datatype Request = Request(verb: string, url: string, params: map<string, string>, protocol: string,
                             version: string, headers: map<string, string>, body: string)

  const CR := '\r'
  const LF := '\n'
  const NUL := 0 as char

  /** The header that announces a body, spelled as the parser spells it. */
  const LENGTH := "Content-Lenght"

  predicate Blank(c: char) {
    c == ' ' || c == '\t'
  }

  predicate Upper(c: char) {
    'A' <= c <= 'Z'
  }

  predicate Digit(c: char) {
    '0' <= c <= '9'
  }

  /** White space that may come before the method, and nothing else. */
  predicate Gap(c: char) {
    c == CR || c == LF || Blank(c)
  }

  // ---------------------------------------------------------------- the machine without cursors

  /** `line` is the text since the cursor `start`; `cut` is where the cursor `colon` is in it. */
  datatype Parser = Parser(state: State, request: Request, line: string, cut: nat)

  /** How a call ends: the state and request it leaves, and whether it threw. */
  datatype Final = Final(state: State, request: Request, threw: bool)

  /** After a request's last header: is a body read? */
  predicate WantsBody(atoi: string -> int, headers: map<string, string>) {
    LENGTH in headers ==> atoi(headers[LENGTH]) > 0
  }

  predicate InLine(state: State) {
    state in {Start, Method, BeforeUrl, InUrl}
  }

  predicate InParam(state: State) {
    state in {BeforeParamKey, ParamKey, BeforeParamValue, ParamValue}
  }

  predicate InProtocol(state: State) {
    state in {BeforeProtocol, Protocol, BeforeVersion, Version}
  }

  predicate InHeader(state: State) {
    state in {HeaderKey, HeaderValue}
  }

  predicate InLineEnd(state: State) {
    state in {WhenCr, CrLf, CrLfCr}
  }

  /** One character; nothing when a slice would end before it starts, which throws. */
  function Eat(atoi: string -> int, m: Parser, c: char): Option<Parser> {
    if InLine(m.state) then Some(EatLine(m, c))
    else if InParam(m.state) then EatParam(m, c)
    else if InProtocol(m.state) then Some(EatProtocol(m, c))
    else if InHeader(m.state) then EatHeader(m, c)
    else if InLineEnd(m.state) then Some(EatLineEnd(atoi, m, c))
    else Some(m.(state := Invalid))
  }

  /** The request line up to the URL. */
  function EatLine(m: Parser, c: char): Parser
    requires InLine(m.state)
  {
    var r, line, cut := m.request, m.line, m.cut;
    var more := line + [c];
    match m.state
    case Start =>
      Parser(if Gap(c) then Start else if Upper(c) then Method else Invalid, r, more, cut)
    case Method =>
      if Blank(c) then Parser(InUrl, r.(verb := line), "", 0)
      else Parser(if Upper(c) then Method else Invalid, r, more, cut)
    case BeforeUrl =>
      Parser(if c == '/' then InUrl else if Blank(c) then BeforeUrl else Invalid, r, more, cut)
    case InUrl =>
      if c == '?' then Parser(BeforeParamKey, r.(url := line), "", 0)
      else if Blank(c) then Parser(BeforeProtocol, r.(url := line), "", 0)
      else Parser(InUrl, r, more, cut)
  }

  function EatParam(m: Parser, c: char): Option<Parser>
    requires InParam(m.state)
  {
    var r, line, cut := m.request, m.line, m.cut;
    var more := line + [c];
    match m.state
    case BeforeParamKey =>
      Some(Parser(if Gap(c) then Invalid else ParamKey, r, more, cut))
    case ParamKey =>
      if c == '=' then Some(Parser(BeforeParamValue, r, more, |line|))
      else Some(Parser(if Blank(c) then Invalid else ParamKey, r, more, cut))
    case BeforeParamValue =>
      Some(Parser(if Gap(c) then Invalid else ParamValue, r, more, cut))
    case ParamValue =>
      if c != '&' && !Blank(c) then Some(Parser(ParamValue, r, more, cut))
      else if cut + 1 > |line| then None
      else
        Some(Parser(if c == '&' then BeforeParamKey else BeforeProtocol,
                    r.(params := r.params[line[..cut] := line[cut + 1..]]), "", 0))
  }

  /** From the protocol to the end of the request line. */
  function EatProtocol(m: Parser, c: char): Parser
    requires InProtocol(m.state)
  {
    var r, line, cut := m.request, m.line, m.cut;
    var more := line + [c];
    match m.state
    case BeforeProtocol =>
      Parser(if Blank(c) then BeforeProtocol else Protocol, r, more, cut)
    case Protocol =>
      if c == '/' then Parser(BeforeVersion, r.(protocol := line), "", 0)
      else Parser(Protocol, r, more, cut)
    case BeforeVersion =>
      Parser(if Digit(c) then Version else Invalid, r, more, cut)
    case Version =>
      if c == CR then Parser(WhenCr, r.(version := line), "", 0)
      else Parser(if Digit(c) || c == '.' then Version else Invalid, r, more, cut)
  }

  function EatHeader(m: Parser, c: char): Option<Parser>
    requires InHeader(m.state)
  {
    var r, line, cut := m.request, m.line, m.cut;
    var more := line + [c];
    match m.state
    case HeaderKey =>
      if c == ':' then Some(Parser(HeaderValue, r, more, |line|))
      else Some(Parser(HeaderKey, r, more, cut))
    case HeaderValue =>
      if c != CR then Some(Parser(HeaderValue, r, more, cut))
      else if cut + 2 > |line| then None
      else Some(Parser(WhenCr, r.(headers := r.headers[line[..cut] := line[cut + 2..]]), "", 0))
  }

  /** After the carriage return of a line. */
  function EatLineEnd(atoi: string -> int, m: Parser, c: char): Parser
    requires InLineEnd(m.state)
  {
    var r, line, cut := m.request, m.line, m.cut;
    var more := line + [c];
    match m.state
    case WhenCr =>
      if c == LF then Parser(CrLf, r, "", 0) else Parser(Invalid, r, more, cut)
    case CrLf =>
      Parser(if c == CR then CrLfCr else if Blank(c) then Invalid else HeaderKey, r, more, cut)
    case CrLfCr =>
      if c == LF then Parser(if WantsBody(atoi, r.headers) then Body else Complete, r, "", 0)
      else Parser(Invalid, r, more, cut)
  }

  /** The state a throw leaves: at '&' it is set before the slices are made. */
  function ThrowState(m: Parser, c: char): State {
    if m.state == ParamValue && c == '&' then BeforeParamKey else m.state
  }

  /** A step of a parser. */
  type Machine = (Parser, char) -> Option<Parser>

  /** The step of the machine, for one meaning of `atoi`. */
  function Switch(atoi: string -> int): Machine {
    (m: Parser, c: char) => Eat(atoi, m, c)
  }

  /** A whole call: the machine reads the text and its terminator until it stops. */
  function Parse(eat: Machine, m: Parser, rest: string): Final
    decreases |rest|
  {
    if m.state == Invalid || m.state == Complete then Final(m.state, m.request, false)
    else if m.state == Body then Final(Complete, m.request.(body := rest), false)
    else
      match eat(m, if rest == "" then NUL else rest[0])
      case None => Final(ThrowState(m, if rest == "" then NUL else rest[0]), m.request, true)
      case Some(next) =>
        if rest == "" then Final(next.state, next.request, false) else Parse(eat, next, rest[1..])
  }

  /** `eat` is the step of the machine, as `Switch(atoi)` is. */
  ghost predicate IsSwitch(eat: Machine, atoi: string -> int) {
    forall m: Parser, c: char {:trigger Eat(atoi, m, c)} :: eat(m, c) == Eat(atoi, m, c)
  }

  /** What `Parse` does with the character at `end` of a text and its terminator. */
  lemma {:induction false} NextChar(atoi: string -> int, eat: Machine, m: Parser, msg: string, end: nat)
    requires IsSwitch(eat, atoi) && end <= |msg| && m.state !in {Body, Invalid, Complete}
    ensures
      match Eat(atoi, m, (msg + [NUL])[end])
      case None => Parse(eat, m, msg[end..]) == Final(ThrowState(m, (msg + [NUL])[end]), m.request, true)
      case Some(next) =>
        && (next.state == Body ==> next.line == "" && end < |msg|)
        && Parse(eat, m, msg[end..]) ==
           if end < |msg| then Parse(eat, next, msg[end + 1..]) else Final(next.state, next.request, false)
  {
    assert end < |msg| ==> msg[end..][1..] == msg[end + 1..];
  }

  // ---------------------------------------------------------------- the parser

  lemma {:induction false} NextSlice(text: string, start: nat, end: nat)
    requires start <= end < |text|
    ensures text[start..end + 1] == text[start..end] + [text[end]] && text[end + 1..end + 1] == []
  {
  }

  /** The key and value of the text since `start` are slices of the text. */
  lemma {:induction false} CutSlice(text: string, start: nat, end: nat, cut: nat, gap: nat)
    requires start <= end <= |text| && cut + gap <= end - start
    ensures text[start..end][..cut] == text[start..start + cut]
    ensures text[start..end][cut + gap..] == text[start + cut + gap..end]
  {
  }

  lemma {:induction false} RestSlice(msg: string, end: nat)
    requires end <= |msg|
    ensures (msg + [NUL])[end..|msg|] == msg[end..]
  {
  }

  class HttpRequest {
    var verb: string
    var url: string
    var params: map<string, string>
    var protocol: string
    var version: string
    var headers: map<string, string>
    var body: string

    function Value(): Request
      reads this
    {
      Request(verb, url, params, protocol, version, headers, body)
    }

    constructor ()
      ensures Value() == Request("", "", map[], "", "", map[], "")
    {
      verb, url, params, protocol, version, headers, body := "", "", map[], "", "", map[], "";
    }
  }

  datatype Outcome = Returned(ok: bool) | Threw

  class HttpContext {
    var state: State
    const request: HttpRequest

    constructor ()
      ensures state == Start && fresh(request)
      ensures request.Value() == Request("", "", map[], "", "", map[], "")
    {
      state := Start;
      request := new HttpRequest();
    }

    /** The request's fields and maps are kept. */
    method ResetContextStatus()
      modifies this
      ensures state == Start
    {
      state := Start;
    }

    /** The cursors stand for a parser that has read text[..end]. */
    ghost predicate At(m: Parser, text: string, start: nat, colon: nat, end: nat)
      reads this, request
    {
      && m.state == state && m.request == request.Value() && m.cut <= |m.line|
      && start <= end <= |text| && m.line == text[start..end]
      && (state == BeforeParamValue || state == ParamValue || state == HeaderValue ==> colon == start + m.cut)
    }

    /** The switch: one character up to the URL. The text ends with its terminator. */
    method AdvanceLine(text: string, begin: nat, mark: nat, end: nat, ghost m: Parser)
        returns (start: nat, colon: nat)
      requires At(m, text, begin, mark, end) && end < |text| && InLine(state)
      modifies this, request
      ensures At(EatLine(m, text[end]), text, start, colon, end + 1)
    {
      start, colon := begin, mark;
      var ch := text[end];
      NextSlice(text, begin, end);
      match state {
        case Start =>
          if ch == CR || ch == LF || Blank(ch) {
          } else if Upper(ch) {
            state := Method;
          } else {
            state := Invalid;
          }
        case Method =>
          if Upper(ch) {
          } else if Blank(ch) {
            request.verb := text[start..end];
            state := InUrl;
            start := end + 1;
          } else {
            state := Invalid;
          }
        case BeforeUrl =>
          if ch == '/' {
            state := InUrl;
          } else if Blank(ch) {
          } else {
            state := Invalid;
          }
        case InUrl =>
          if ch == '?' {
            request.url := text[start..end];
            start := end + 1;
            state := BeforeParamKey;
          } else if Blank(ch) {
            request.url := text[start..end];
            start := end + 1;
            state := BeforeProtocol;
          }
      }
    }

    /** The switch: one character of the parameters. */
    method AdvanceParam(text: string, begin: nat, mark: nat, end: nat, ghost m: Parser)
        returns (start: nat, colon: nat, threw: bool)
      requires At(m, text, begin, mark, end) && end < |text| && InParam(state)
      modifies this, request
      ensures threw <==> EatParam(m, text[end]) == None
      ensures threw ==> state == ThrowState(m, text[end]) && request.Value() == m.request
      ensures !threw ==> At(EatParam(m, text[end]).value, text, start, colon, end + 1)
    {
      start, colon, threw := begin, mark, false;
      var ch := text[end];
      NextSlice(text, begin, end);
      match state {
        case BeforeParamKey =>
          if Blank(ch) || ch == CR || ch == LF {
            state := Invalid;
          } else {
            state := ParamKey;
          }
        case ParamKey =>
          if ch == '=' {
            colon := end;
            state := BeforeParamValue;
          } else if Blank(ch) {
            state := Invalid;
          }
        case BeforeParamValue =>
          if Blank(ch) || ch == LF || ch == CR {
            state := Invalid;
          } else {
            state := ParamValue;
          }
        case ParamValue =>
          if ch == '&' || Blank(ch) {
            if ch == '&' {
              state := BeforeParamKey;
            }
            if colon + 1 > end {
              threw := true;
            } else {
              CutSlice(text, begin, end, m.cut, 1);
              request.params := request.params[text[start..colon] := text[colon + 1..end]];
              start := end + 1;
              if ch != '&' {
                state := BeforeProtocol;
              }
            }
          }
      }
    }

    /** The switch: one character of the protocol and version. */
    method AdvanceProtocol(text: string, begin: nat, mark: nat, end: nat, ghost m: Parser)
        returns (start: nat, colon: nat)
      requires At(m, text, begin, mark, end) && end < |text| && InProtocol(state)
      modifies this, request
      ensures At(EatProtocol(m, text[end]), text, start, colon, end + 1)
    {
      start, colon := begin, mark;
      var ch := text[end];
      NextSlice(text, begin, end);
      match state {
        case BeforeProtocol =>
          if !Blank(ch) {
            state := Protocol;
          }
        case Protocol =>
          if ch == '/' {
            request.protocol := text[start..end];
            start := end + 1;
            state := BeforeVersion;
          }
        case BeforeVersion =>
          state := if Digit(ch) then Version else Invalid;
        case Version =>
          if ch == CR {
            request.version := text[start..end];
            start := end + 1;
            state := WhenCr;
          } else if Digit(ch) || ch == '.' {
          } else {
            state := Invalid;
          }
      }
    }

    /** The switch: one character of a header line. */
    method AdvanceHeader(text: string, begin: nat, mark: nat, end: nat, ghost m: Parser)
        returns (start: nat, colon: nat, threw: bool)
      requires At(m, text, begin, mark, end) && end < |text| && InHeader(state)
      modifies this, request
      ensures threw <==> EatHeader(m, text[end]) == None
      ensures threw ==> state == ThrowState(m, text[end]) && request.Value() == m.request
      ensures !threw ==> At(EatHeader(m, text[end]).value, text, start, colon, end + 1)
    {
      start, colon, threw := begin, mark, false;
      var ch := text[end];
      NextSlice(text, begin, end);
      match state {
        case HeaderKey =>
          if ch == ':' {
            colon := end;
            state := HeaderValue;
          }
        case HeaderValue =>
          if ch == CR {
            if colon + 2 > end {
              threw := true;
            } else {
              CutSlice(text, begin, end, m.cut, 2);
              request.headers := request.headers[text[start..colon] := text[colon + 2..end]];
              start := end + 1;
              state := WhenCr;
            }
          }
      }
    }

    /** After the empty line: is a body to be read? `more` says that the line feed was not the terminator. */
    method ChooseBody(atoi: string -> int, more: bool)
      modifies this`state
      ensures state in {Body, Complete}
      ensures state == Body <==>
        if "Content-Lenght" in request.headers then atoi(request.headers["Content-Lenght"]) > 0 else more
    {
      if LENGTH in request.headers {
        state := if atoi(request.headers[LENGTH]) > 0 then Body else Complete;
      } else {
        state := if more then Body else Complete;
      }
    }

    /** The switch: one character between lines. */
    method AdvanceLineEnd(atoi: string -> int, text: string, begin: nat, mark: nat, end: nat, ghost m: Parser)
        returns (start: nat, colon: nat)
      requires At(m, text, begin, mark, end) && end < |text| && InLineEnd(state) && text[|text| - 1] == NUL
      modifies this, request
      ensures At(EatLineEnd(atoi, m, text[end]), text, start, colon, end + 1)
    {
      start, colon := begin, mark;
      var ch := text[end];
      NextSlice(text, begin, end);
      match state {
        case WhenCr =>
          if ch == LF {
            start := end + 1;
            state := CrLf;
          } else {
            state := Invalid;
          }
        case CrLf =>
          if ch == CR {
            state := CrLfCr;
          } else if Blank(ch) {
            state := Invalid;
          } else {
            state := HeaderKey;
          }
        case CrLfCr =>
          if ch == LF {
            ChooseBody(atoi, end < |text| - 1);
            start := end + 1;
          } else {
            state := Invalid;
          }
      }
    }

    /** The switch, and what it does to the call that is running. */
    method Advance(atoi: string -> int, text: string, begin: nat, mark: nat, end: nat,
                   ghost eat: Machine, ghost m: Parser, ghost msg: string)
        returns (start: nat, colon: nat, threw: bool, ghost next: Parser)
      requires IsSwitch(eat, atoi) && text == msg + [NUL] && end <= |msg| && At(m, text, begin, mark, end)
      requires state !in {Body, Invalid, Complete}
      modifies this, request
      ensures threw ==> Parse(eat, m, msg[end..]) == Final(state, request.Value(), true)
      ensures !threw ==> At(next, text, start, colon, end + 1)
      ensures !threw && state == Body ==> next.line == "" && end < |msg|
      ensures threw || Parse(eat, m, msg[end..]) ==
        if end < |msg| then Parse(eat, next, msg[end + 1..]) else Final(next.state, next.request, false)
    {
      ghost var eaten := Eat(atoi, m, text[end]);
      NextChar(atoi, eat, m, msg, end);
      threw := false;
      if InLine(state) {
        start, colon := AdvanceLine(text, begin, mark, end, m);
      } else if InParam(state) {
        start, colon, threw := AdvanceParam(text, begin, mark, end, m);
      } else if InProtocol(state) {
        start, colon := AdvanceProtocol(text, begin, mark, end, m);
      } else if InHeader(state) {
        start, colon, threw := AdvanceHeader(text, begin, mark, end, m);
      } else {
        start, colon := AdvanceLineEnd(atoi, text, begin, mark, end, m);
      }
      next := if eaten.Some? then eaten.value else m;
    }

    /** The body is the rest of the message. */
    method TakeBody(msg: string, start: nat, ghost colon: nat, end: nat, ghost eat: Machine, ghost m: Parser)
      requires At(m, msg + [NUL], start, colon, end) && end <= |msg| && state == Body && m.line == ""
      modifies this, request
      ensures Parse(eat, m, msg[end..]) == Final(Complete, request.Value(), false) && state == Complete
    {
      var bodyLength := |msg| - end;
      assert start == end;
      RestSlice(msg, end);
      request.body := (msg + [NUL])[start..start + bodyLength];
      state := Complete;
    }

    /** The loop. */
    method ReadMessage(atoi: string -> int, msg: string, ghost eat: Machine)
        returns (outcome: Outcome)
      requires IsSwitch(eat, atoi)
      modifies this, request
      ensures var final := Parse(eat, Parser(old(state), old(request.Value()), "", 0), msg);
        && state == final.state && request.Value() == final.request
        && outcome == if final.threw then Threw else Returned(final.state == Complete)
    {
      var size := |msg|;
      var text := msg + [NUL];
      var start: nat, end: nat, colon: nat := 0, 0, 0;
      ghost var final := Parse(eat, Parser(state, request.Value(), "", 0), msg);
      ghost var m := Parser(state, request.Value(), "", 0);
      while state != Invalid && state != Complete && end <= size
        invariant end <= size + 1 && At(m, text, start, colon, end)
        invariant state == Body ==> m.line == "" && end <= size
        invariant final == if end <= size then Parse(eat, m, msg[end..]) else Final(state, request.Value(), false)
        decreases size + 1 - end
      {
        if state == Body {
          TakeBody(msg, start, colon, end, eat, m);
          return Returned(true);
        }
        var threw;
        start, colon, threw, m := Advance(atoi, text, start, colon, end, eat, m, msg);
        if threw {
          return Threw;
        }
        end := end + 1;
      }
      return Returned(state == Complete);
    }

    /**
     Reads a message. True when the request is complete. Its size is converted to an
     int: of a message of 2 GiB or more, up to 4, nothing is read.
     */
    method ParaseRequest(atoi: string -> int, msg: string) returns (outcome: Outcome)
      requires |msg| < Bytes.U32
      modifies this, request
      ensures var m := Parser(old(state), old(request.Value()), "", 0);
        var final := if |msg| < 0x8000_0000 then Parse(Switch(atoi), m, msg) else Final(m.state, m.request, false);
        && state == final.state && request.Value() == final.request
        && outcome == if final.threw then Threw else Returned(final.state == Complete)
    {
      var size := Bytes.ToInt(|msg|);
      if size < 0 {
        return Returned(state == Complete);
      }
      outcome := ReadMessage(atoi, msg, Switch(atoi));
    }
  }
}
