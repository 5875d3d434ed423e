/**
 What the request parser accepts, and what it makes of it: it completes exactly
 on the printed form of a well-formed request, and throws exactly when a header
 line has nothing between its colon and its end.
 */
module HttpTheorems {
  import opened HttpParser
  import opened Options

  datatype Pair = Pair(key: string, value: string)

  /** A header line; `gap` is the one character after the colon that the parser skips. */
  datatype Header = Header(key: string, gap: char, value: string)

  /**
   A request, with every character of its printed form: `gap` and `blanks` are
   white space that the parser keeps in front of the method and the protocol.
   */
  datatype Wire = Wire(gap: string, verb: string, sep: char, url: string, params: seq<Pair>, end: char,
                       blanks: string, protocol: string, version: string, headers: seq<Header>)

  // ---------------------------------------------------------------- printing

  /** Parameters, the first behind a mark, and what follows them. */
  function Query(params: seq<Pair>, mark: char, rest: string): string {
    if |params| == 0 then rest
    else [mark] + (params[0].key + (['='] + (params[0].value + Query(params[1..], '&', rest))))
  }

  /** The header lines after the carriage return of the line before, and what follows them. */
  function Lines(headers: seq<Header>, rest: string): string {
    ['\n'] + if |headers| == 0 then rest
           else headers[0].key + ([':', headers[0].gap] + (headers[0].value + (['\r'] + Lines(headers[1..], rest))))
  }

  /** A request up to its last header line, and what follows. */
  function PrintHead(w: Wire, rest: string): string {
    w.gap + (w.verb + ([w.sep] + (w.url + Query(w.params, '?', [w.end] + PrintTail(w, rest)))))
  }

  function PrintTail(w: Wire, rest: string): string {
    w.blanks + (w.protocol + (['/'] + (w.version + (['\r'] + Lines(w.headers, rest)))))
  }

  function Print(w: Wire, body: string): string {
    PrintHead(w, "\r\n" + body)
  }

  // ---------------------------------------------------------------- well-formed requests

  predicate Space(c: char) {
    c == ' ' || c == '\t'
  }

  predicate White(c: char) {
    Space(c) || c == '\r' || c == '\n'
  }

  /** The characters that a state keeps reading. */
  predicate Stays(state: State, c: char) {
    match state
    case Start => White(c)
    case Method => 'A' <= c <= 'Z'
    case BeforeUrl | BeforeProtocol => Space(c)
    case InUrl => c != '?' && !Space(c)
    case ParamKey => c != '=' && !Space(c)
    case ParamValue => c != '&' && !Space(c)
    case Protocol => c != '/'
    case Version => '0' <= c <= '9' || c == '.'
    case HeaderKey => c != ':'
    case HeaderValue => c != '\r'
    case _ => false
  }

  predicate AllStay(state: State, s: string) {
    forall i :: 0 <= i < |s| ==> Stays(state, s[i])
  }

  predicate PairOk(p: Pair) {
    && |p.key| > 0 && !White(p.key[0]) && AllStay(ParamKey, p.key[1..])
    && |p.value| > 0 && !White(p.value[0]) && AllStay(ParamValue, p.value[1..])
  }

  predicate KeyOk(key: string) {
    |key| > 0 && key[0] != '\r' && !Space(key[0]) && AllStay(HeaderKey, key[1..])
  }

  predicate HeaderOk(h: Header) {
    KeyOk(h.key) && h.gap != '\r' && AllStay(HeaderValue, h.value)
  }

  predicate TailOk(w: Wire) {
    && AllStay(BeforeProtocol, w.blanks)
    && |w.protocol| > 0 && !Space(w.protocol[0]) && AllStay(Protocol, w.protocol[1..])
    && |w.version| > 0 && '0' <= w.version[0] <= '9' && AllStay(Version, w.version[1..])
    && forall i :: 0 <= i < |w.headers| ==> HeaderOk(w.headers[i])
  }

  predicate WellFormed(w: Wire) {
    && AllStay(Start, w.gap)
    && |w.verb| > 0 && AllStay(Method, w.verb) && Space(w.sep)
    && AllStay(InUrl, w.url) && Space(w.end)
    && (forall i :: 0 <= i < |w.params| ==> PairOk(w.params[i]))
    && TailOk(w)
  }

  // ---------------------------------------------------------------- what a request means

  /** The pairs put into the map in order, so that the last one of a key wins. */
  function Overlay(m: map<string, string>, pairs: seq<Pair>): map<string, string>
    decreases |pairs|
  {
    if |pairs| == 0 then m else Overlay(m[pairs[0].key := pairs[0].value], pairs[1..])
  }

  function Pairs(headers: seq<Header>): seq<Pair> {
    if |headers| == 0 then [] else [Pair(headers[0].key, headers[0].value)] + Pairs(headers[1..])
  }

  /** The value of the last header of a name. */
  function LastValue(headers: seq<Header>, key: string): Option<string> {
    if headers == [] then None
    else
      var last := headers[|headers| - 1];
      if last.key == key then Some(last.value) else LastValue(headers[..|headers| - 1], key)
  }

  /**
   A body is taken unless the last header "Content-Lenght", or without one that of the
   message before, gives a length that is not positive.
   */
  predicate TakesBody(atoi: string -> int, w: Wire, before: map<string, string>) {
    match LastValue(w.headers, "Content-Lenght")
    case Some(length) => atoi(length) > 0
    case None => "Content-Lenght" !in before || atoi(before["Content-Lenght"]) > 0
  }

  function ApplyHead(w: Wire, r: Request): Request {
    r.(verb := w.gap + w.verb, url := w.url, params := Overlay(r.params, w.params), protocol := w.blanks + w.protocol,
       version := w.version, headers := Overlay(r.headers, Pairs(w.headers)))
  }

  /** What a printed request means, over the request of the message before. */
  function Meaning(atoi: string -> int, r: Request, w: Wire, body: string): Request {
    ApplyHead(w, r).(body := if TakesBody(atoi, w, r.headers) then body else r.body)
  }

  /** A parser at the start of a message, over the request of the message before. */
  function Fresh(r: Request): Parser {
    Parser(Start, r, "", 0)
  }

  // ---------------------------------------------------------------- runs of one state

  /** One character that does not throw. */
  lemma {:induction false} OneStep(eat: Machine, m: Parser, c: char, next: Parser, rest: string)
    requires m.state !in {Invalid, Complete, Body} && eat(m, c) == Some(next)
    ensures Parse(eat, m, [c] + rest) == Parse(eat, next, rest)
  {
    assert ([c] + rest)[1..] == rest;
  }

  /** The machine keeps reading in a state, and its terminator ends no call there. */
  ghost predicate Runs(eat: Machine, state: State) {
    && state !in {Invalid, Complete, Body}
    && (forall m: Parser, c: char :: m.state == state && Stays(state, c) ==>
          eat(m, c) == Some(m.(line := m.line + [c])))
    && forall m: Parser :: m.state == state ==> eat(m, NUL).Some? && eat(m, NUL).value.state != Complete
  }

  lemma {:induction false} StaysReading(atoi: string -> int, m: Parser, c: char)
    requires m.state !in {Invalid, Complete, Body} && Stays(m.state, c)
    ensures Eat(atoi, m, c) == Some(m.(line := m.line + [c]))
  {
  }

  lemma {:induction false} Terminator(atoi: string -> int, m: Parser)
    requires m.state !in {Invalid, Complete, Body}
    ensures Eat(atoi, m, NUL).Some? && Eat(atoi, m, NUL).value.state != Complete
  {
  }

  lemma {:induction false} SwitchRuns(atoi: string -> int, eat: Machine, state: State)
    requires IsSwitch(eat, atoi)
    requires state !in {Invalid, Complete, Body}
    ensures Runs(eat, state)
  {
    forall m: Parser, c: char | m.state == state && Stays(state, c)
      ensures eat(m, c) == Some(m.(line := m.line + [c]))
    {
      StaysReading(atoi, m, c);
    }
    forall m: Parser | m.state == state
      ensures eat(m, NUL).Some? && eat(m, NUL).value.state != Complete
    {
      Terminator(atoi, m);
    }
  }

  lemma {:induction false} Uncons(s: string, front: string, rest: string)
    requires |s| > 0
    ensures s + rest == [s[0]] + (s[1..] + rest) && front + [s[0]] + s[1..] == front + s
  {
  }

  lemma {:induction false} RunSkips(eat: Machine, m: Parser, u: string, rest: string)
    requires Runs(eat, m.state) && AllStay(m.state, u)
    ensures Parse(eat, m, u + rest) == Parse(eat, m.(line := m.line + u), rest)
    decreases |u|
  {
    if u == "" {
      assert u + rest == rest && m.line + u == m.line;
    } else {
      var next := m.(line := m.line + [u[0]]);
      Uncons(u, m.line, rest);
      OneStep(eat, m, u[0], next, u[1..] + rest);
      RunSkips(eat, next, u[1..], rest);
    }
  }

  lemma {:induction false} Step(atoi: string -> int, eat: Machine, m: Parser, c: char, next: Parser, rest: string)
    requires IsSwitch(eat, atoi)
    requires m.state !in {Invalid, Complete, Body} && Eat(atoi, m, c) == Some(next)
    ensures Parse(eat, m, [c] + rest) == Parse(eat, next, rest)
  {
    OneStep(eat, m, c, next, rest);
  }

  /** A first character that changes the state, and a run of the new state. */
  lemma {:induction false} FieldReads(eat: Machine, m: Parser, state: State, s: string, rest: string)
    requires |s| > 0 && m.state !in {Invalid, Complete, Body} && Runs(eat, state) && AllStay(state, s[1..])
    requires eat(m, s[0]) == Some(m.(state := state, line := m.line + [s[0]]))
    ensures Parse(eat, m, s + rest) == Parse(eat, m.(state := state, line := m.line + s), rest)
  {
    var next := m.(state := state, line := m.line + [s[0]]);
    Uncons(s, m.line, rest);
    OneStep(eat, m, s[0], next, s[1..] + rest);
    RunSkips(eat, next, s[1..], rest);
  }

  lemma {:induction false} SkipRun(atoi: string -> int, eat: Machine, m: Parser, u: string, rest: string)
    requires IsSwitch(eat, atoi)
    requires m.state !in {Invalid, Complete, Body} && AllStay(m.state, u)
    ensures Parse(eat, m, u + rest) == Parse(eat, m.(line := m.line + u), rest)
  {
    SwitchRuns(atoi, eat, m.state);
    RunSkips(eat, m, u, rest);
  }

  lemma {:induction false} ReadField(atoi: string -> int, eat: Machine, m: Parser, state: State, s: string,
                                     rest: string)
    requires IsSwitch(eat, atoi)
    requires |s| > 0 && {m.state, state} !! {Invalid, Complete, Body} && AllStay(state, s[1..])
    requires Eat(atoi, m, s[0]) == Some(m.(state := state, line := m.line + [s[0]]))
    ensures Parse(eat, m, s + rest) == Parse(eat, m.(state := state, line := m.line + s), rest)
  {
    SwitchRuns(atoi, eat, state);
    FieldReads(eat, m, state, s, rest);
  }

  /** A field and the character that ends it. */
  lemma {:induction false} FieldThen(atoi: string -> int, eat: Machine, m: Parser, state: State, s: string, c: char,
                                     next: Parser, rest: string)
    requires IsSwitch(eat, atoi)
    requires |s| > 0 && {m.state, state} !! {Invalid, Complete, Body} && AllStay(state, s[1..])
    requires Eat(atoi, m, s[0]) == Some(m.(state := state, line := m.line + [s[0]]))
    requires Eat(atoi, m.(state := state, line := m.line + s), c) == Some(next)
    ensures Parse(eat, m, s + ([c] + rest)) == Parse(eat, next, rest)
  {
    ReadField(atoi, eat, m, state, s, [c] + rest);
    Step(atoi, eat, m.(state := state, line := m.line + s), c, next, rest);
  }

  // ---------------------------------------------------------------- reading what was printed

  lemma {:induction false} ReadKey(atoi: string -> int, eat: Machine, r: Request, p: Pair, rest: string)
    requires IsSwitch(eat, atoi)
    requires PairOk(p)
    ensures Parse(eat, Parser(BeforeParamKey, r, "", 0), p.key + (['='] + rest)) ==
            Parse(eat, Parser(BeforeParamValue, r, p.key + ['='], |p.key|), rest)
  {
    assert "" + p.key == p.key;
    FieldThen(atoi, eat, Parser(BeforeParamKey, r, "", 0), ParamKey, p.key, '=',
              Parser(BeforeParamValue, r, p.key + ['='], |p.key|), rest);
  }

  lemma {:induction false} ReadValue(atoi: string -> int, eat: Machine, r: Request, p: Pair, c: char, rest: string)
    requires IsSwitch(eat, atoi)
    requires PairOk(p) && (c == '&' || Blank(c))
    ensures Parse(eat, Parser(BeforeParamValue, r, p.key + ['='], |p.key|), p.value + ([c] + rest)) ==
            Parse(eat, Parser(if c == '&' then BeforeParamKey else BeforeProtocol,
                              r.(params := r.params[p.key := p.value]), "", 0), rest)
  {
    var line := p.key + ['='];
    assert (line + p.value)[..|p.key|] == p.key && (line + p.value)[|p.key| + 1..] == p.value;
    FieldThen(atoi, eat, Parser(BeforeParamValue, r, line, |p.key|), ParamValue, p.value, c,
              Parser(if c == '&' then BeforeParamKey else BeforeProtocol,
                     r.(params := r.params[p.key := p.value]), "", 0), rest);
  }

  lemma {:induction false} ReadPairs(atoi: string -> int, eat: Machine, r: Request, params: seq<Pair>, end: char,
                                     rest: string)
    requires IsSwitch(eat, atoi)
    requires |params| > 0 && Blank(end) && forall i :: 0 <= i < |params| ==> PairOk(params[i])
    ensures Parse(eat, Parser(BeforeParamKey, r, "", 0), Query(params, '?', [end] + rest)[1..]) ==
            Parse(eat, Parser(BeforeProtocol, r.(params := Overlay(r.params, params)), "", 0), rest)
    decreases |params|
  {
    var p, more := params[0], params[1..];
    var after := Query(more, '&', [end] + rest);
    assert Query(params, '?', [end] + rest)[1..] == p.key + (['='] + (p.value + after));
    ReadKey(atoi, eat, r, p, p.value + after);
    var r1 := r.(params := r.params[p.key := p.value]);
    if more == [] {
      ReadValue(atoi, eat, r, p, end, rest);
    } else {
      assert after == ['&'] + Query(more, '?', [end] + rest)[1..];
      ReadValue(atoi, eat, r, p, '&', Query(more, '?', [end] + rest)[1..]);
      ReadPairs(atoi, eat, r1, more, end, rest);
    }
  }

  /** From the URL to the blank before the protocol. */
  lemma {:induction false} ReadUrl(atoi: string -> int, eat: Machine, r: Request, w: Wire, rest: string)
    requires IsSwitch(eat, atoi)
    requires WellFormed(w)
    ensures Parse(eat, Parser(InUrl, r, "", 0), w.url + Query(w.params, '?', [w.end] + rest)) ==
            Parse(eat, Parser(BeforeProtocol, r.(url := w.url, params := Overlay(r.params, w.params)), "", 0), rest)
  {
    var after := Query(w.params, '?', [w.end] + rest);
    SkipRun(atoi, eat, Parser(InUrl, r, "", 0), w.url, after);
    assert "" + w.url == w.url;
    var m := Parser(InUrl, r, w.url, 0);
    if w.params == [] {
      Step(atoi, eat, m, w.end, Parser(BeforeProtocol, r.(url := w.url), "", 0), rest);
    } else {
      assert after == ['?'] + after[1..];
      Step(atoi, eat, m, '?', Parser(BeforeParamKey, r.(url := w.url), "", 0), after[1..]);
      ReadPairs(atoi, eat, r.(url := w.url), w.params, w.end, rest);
    }
  }

  lemma {:induction false} ReadProtocol(atoi: string -> int, eat: Machine, r: Request, w: Wire, rest: string)
    requires IsSwitch(eat, atoi)
    requires TailOk(w)
    ensures Parse(eat, Parser(BeforeProtocol, r, "", 0), w.blanks + (w.protocol + (['/'] + rest))) ==
            Parse(eat, Parser(BeforeVersion, r.(protocol := w.blanks + w.protocol), "", 0), rest)
  {
    SkipRun(atoi, eat, Parser(BeforeProtocol, r, "", 0), w.blanks, w.protocol + (['/'] + rest));
    assert "" + w.blanks == w.blanks;
    ReadProtocolName(atoi, eat, r, w, rest);
  }

  lemma {:induction false} ReadProtocolName(atoi: string -> int, eat: Machine, r: Request, w: Wire, rest: string)
    requires IsSwitch(eat, atoi)
    requires TailOk(w)
    ensures Parse(eat, Parser(BeforeProtocol, r, w.blanks, 0), w.protocol + (['/'] + rest)) ==
            Parse(eat, Parser(BeforeVersion, r.(protocol := w.blanks + w.protocol), "", 0), rest)
  {
    FieldThen(atoi, eat, Parser(BeforeProtocol, r, w.blanks, 0), Protocol, w.protocol, '/',
              Parser(BeforeVersion, r.(protocol := w.blanks + w.protocol), "", 0), rest);
  }

  lemma {:induction false} ReadVersion(atoi: string -> int, eat: Machine, r: Request, w: Wire, rest: string)
    requires IsSwitch(eat, atoi)
    requires TailOk(w)
    ensures Parse(eat, Parser(BeforeVersion, r, "", 0), w.version + ([CR] + rest)) ==
            Parse(eat, Parser(WhenCr, r.(version := w.version), "", 0), rest)
  {
    assert "" + w.version == w.version;
    FieldThen(atoi, eat, Parser(BeforeVersion, r, "", 0), Version, w.version, CR,
              Parser(WhenCr, r.(version := w.version), "", 0), rest);
  }

  lemma {:induction false} ReadLine(atoi: string -> int, eat: Machine, r: Request, key: string, rest: string)
    requires IsSwitch(eat, atoi)
    requires KeyOk(key)
    ensures Parse(eat, Parser(CrLf, r, "", 0), key + ([':'] + rest)) ==
            Parse(eat, Parser(HeaderValue, r, key + [':'], |key|), rest)
  {
    assert "" + key == key;
    FieldThen(atoi, eat, Parser(CrLf, r, "", 0), HeaderKey, key, ':', Parser(HeaderValue, r, key + [':'], |key|), rest);
  }

  lemma {:induction false} ReadHeader(atoi: string -> int, eat: Machine, r: Request, h: Header, rest: string)
    requires IsSwitch(eat, atoi)
    requires HeaderOk(h)
    ensures Parse(eat, Parser(CrLf, r, "", 0), h.key + ([':', h.gap] + (h.value + ([CR] + rest)))) ==
            Parse(eat, Parser(WhenCr, r.(headers := r.headers[h.key := h.value]), "", 0), rest)
  {
    var after := h.value + ([CR] + rest);
    assert [':', h.gap] + after == [':'] + ([h.gap] + after);
    ReadLine(atoi, eat, r, h.key, [h.gap] + after);
    var line := h.key + [':'];
    Step(atoi, eat, Parser(HeaderValue, r, line, |h.key|), h.gap,
         Parser(HeaderValue, r, line + [h.gap], |h.key|), after);
    SkipRun(atoi, eat, Parser(HeaderValue, r, line + [h.gap], |h.key|), h.value, [CR] + rest);
    var whole := line + [h.gap] + h.value;
    assert whole[..|h.key|] == h.key && whole[|h.key| + 2..] == h.value;
    Step(atoi, eat, Parser(HeaderValue, r, whole, |h.key|), CR,
         Parser(WhenCr, r.(headers := r.headers[h.key := h.value]), "", 0), rest);
  }

  lemma {:induction false} ReadLines(atoi: string -> int, eat: Machine, r: Request, headers: seq<Header>, rest: string)
    requires IsSwitch(eat, atoi)
    requires forall i :: 0 <= i < |headers| ==> HeaderOk(headers[i])
    ensures Parse(eat, Parser(WhenCr, r, "", 0), Lines(headers, rest)) ==
            Parse(eat, Parser(CrLf, r.(headers := Overlay(r.headers, Pairs(headers))), "", 0), rest)
    decreases |headers|
  {
    if headers == [] {
      Step(atoi, eat, Parser(WhenCr, r, "", 0), LF, Parser(CrLf, r, "", 0), rest);
    } else {
      var h, more := headers[0], headers[1..];
      var after := h.key + ([':', h.gap] + (h.value + ([CR] + Lines(more, rest))));
      Step(atoi, eat, Parser(WhenCr, r, "", 0), LF, Parser(CrLf, r, "", 0), after);
      ReadHeader(atoi, eat, r, h, Lines(more, rest));
      ReadLines(atoi, eat, r.(headers := r.headers[h.key := h.value]), more, rest);
      assert Pairs(headers)[1..] == Pairs(more);
    }
  }

  /** A printed request up to its last header line is read as what it means. */
  lemma {:induction false} ReadHead(atoi: string -> int, eat: Machine, r: Request, w: Wire, rest: string)
    requires IsSwitch(eat, atoi)
    requires WellFormed(w)
    ensures Parse(eat, Fresh(r), PrintHead(w, rest)) ==
            Parse(eat, Parser(CrLf, ApplyHead(w, r), "", 0), rest)
  {
    var url := w.url + Query(w.params, '?', [w.end] + PrintTail(w, rest));
    SkipRun(atoi, eat, Fresh(r), w.gap, w.verb + ([w.sep] + url));
    assert "" + w.gap == w.gap;
    ReadField(atoi, eat, Parser(Start, r, w.gap, 0), Method, w.verb, [w.sep] + url);
    var r1 := r.(verb := w.gap + w.verb);
    Step(atoi, eat, Parser(Method, r, w.gap + w.verb, 0), w.sep, Parser(InUrl, r1, "", 0), url);
    ReadUrl(atoi, eat, r1, w, PrintTail(w, rest));
    var r2 := r1.(url := w.url, params := Overlay(r1.params, w.params));
    ReadProtocol(atoi, eat, r2, w, w.version + ([CR] + Lines(w.headers, rest)));
    var r3 := r2.(protocol := w.blanks + w.protocol);
    ReadVersion(atoi, eat, r3, w, Lines(w.headers, rest));
    ReadLines(atoi, eat, r3.(version := w.version), w.headers, rest);
  }

  lemma {:induction false} ReadEnd(atoi: string -> int, eat: Machine, r: Request, body: string)
    requires IsSwitch(eat, atoi)
    ensures Parse(eat, Parser(CrLf, r, "", 0), [CR, LF] + body) ==
            Final(Complete, if WantsBody(atoi, r.headers) then r.(body := body) else r, false)
  {
    assert [CR, LF] + body == [CR] + ([LF] + body) && "" + [CR] == [CR];
    Step(atoi, eat, Parser(CrLf, r, "", 0), CR, Parser(CrLfCr, r, [CR], 0), [LF] + body);
    Step(atoi, eat, Parser(CrLfCr, r, [CR], 0), LF,
         Parser(if WantsBody(atoi, r.headers) then Body else Complete, r, "", 0), body);
  }

  lemma {:induction false} ReadThrow(atoi: string -> int, eat: Machine, r: Request, key: string, rest: string)
    requires IsSwitch(eat, atoi)
    requires KeyOk(key)
    ensures Parse(eat, Parser(CrLf, r, "", 0), key + ([':', CR] + rest)) == Final(HeaderValue, r, true)
  {
    assert [':', CR] + rest == [':'] + ([CR] + rest);
    ReadLine(atoi, eat, r, key, [CR] + rest);
    assert ([CR] + rest)[0] == CR && Eat(atoi, Parser(HeaderValue, r, key + [':'], |key|), CR) == None;
  }

  lemma {:induction false} LengthKept(m: map<string, string>, headers: seq<Header>, key: string)
    ensures var after, v := Overlay(m, Pairs(headers)), LastValue(headers, key);
      && (key in after <==> v.Some? || key in m)
      && (key in after ==> after[key] == if v.Some? then v.value else m[key])
    decreases |headers|
  {
    if headers != [] {
      var before, last := headers[..|headers| - 1], headers[|headers| - 1];
      LengthKept(m, before, key);
      assert headers == before + [last];
      PairsOneMore(before, last);
      OverlayOneMore(m, Pairs(before), Pair(last.key, last.value));
    }
  }

  lemma {:induction false} PairsOneMore(headers: seq<Header>, h: Header)
    ensures Pairs(headers + [h]) == Pairs(headers) + [Pair(h.key, h.value)]
    decreases |headers|
  {
    if headers == [] {
      assert [h][1..] == [];
    } else {
      assert (headers + [h])[1..] == headers[1..] + [h];
      PairsOneMore(headers[1..], h);
    }
  }

  lemma {:induction false} OverlayOneMore(m: map<string, string>, pairs: seq<Pair>, p: Pair)
    ensures Overlay(m, pairs + [p]) == Overlay(m, pairs)[p.key := p.value]
    decreases |pairs|
  {
    if pairs == [] {
      assert [p][1..] == [];
    } else {
      assert (pairs + [p])[1..] == pairs[1..] + [p];
      OverlayOneMore(m[pairs[0].key := pairs[0].value], pairs[1..], p);
    }
  }

  /** The parser's test of the headers is the one on what was printed. */
  lemma {:induction false} BodyAsAnnounced(atoi: string -> int, r: Request, w: Wire)
    ensures WantsBody(atoi, ApplyHead(w, r).headers) <==> TakesBody(atoi, w, r.headers)
  {
    LengthKept(r.headers, w.headers, "Content-Lenght");
  }

  /** Parsing a printed request gives what it means, over whatever request was there before. */
  lemma {:induction false} ParseUndoesPrint(atoi: string -> int, eat: Machine, r: Request, w: Wire, body: string)
    requires IsSwitch(eat, atoi)
    requires WellFormed(w)
    ensures Parse(eat, Fresh(r), Print(w, body)) ==
            Final(Complete, Meaning(atoi, r, w, body), false)
  {
    ReadHead(atoi, eat, r, w, [CR, LF] + body);
    ReadEnd(atoi, eat, ApplyHead(w, r), body);
    BodyAsAnnounced(atoi, r, w);
  }

  // ---------------------------------------------------------------- what was read was printed

  /** The call completes a request or throws. */
  predicate Ends(f: Final) {
    f.threw || f.state == Complete
  }

  lemma {:induction false} SplitRun(state: State, rest: string) returns (u: string, tail: string)
    ensures rest == u + tail && AllStay(state, u) && (tail == "" || !Stays(state, tail[0]))
    decreases |rest|
  {
    if rest == "" || !Stays(state, rest[0]) {
      return "", rest;
    }
    u, tail := SplitRun(state, rest[1..]);
    u := [rest[0]] + u;
  }

  lemma {:induction false} CharTaken(eat: Machine, m: Parser, rest: string) returns (c: char, tail: string)
    requires Runs(eat, m.state) && Ends(Parse(eat, m, rest))
    ensures rest == [c] + tail
    ensures match eat(m, c)
      case None => Parse(eat, m, rest).threw
      case Some(next) => next.state != Invalid && Parse(eat, m, rest) == Parse(eat, next, tail)
  {
    assert rest != "";
    c, tail := rest[0], rest[1..];
    OneOrNone(eat, m, rest);
  }

  lemma {:induction false} OneOrNone(eat: Machine, m: Parser, rest: string)
    requires m.state !in {Invalid, Complete, Body} && rest != ""
    ensures match eat(m, rest[0])
      case None => Parse(eat, m, rest).threw
      case Some(next) => Parse(eat, m, rest) == Parse(eat, next, rest[1..])
    ensures eat(m, rest[0]).Some? && eat(m, rest[0]).value.state == Invalid ==> !Ends(Parse(eat, m, rest))
  {
  }

  /** The whole run of a state, and the character that ends it. */
  lemma {:induction false} FindRun(eat: Machine, m: Parser, rest: string)
      returns (u: string, c: char, tail: string)
    requires Runs(eat, m.state) && Ends(Parse(eat, m, rest))
    ensures rest == u + ([c] + tail) && AllStay(m.state, u) && !Stays(m.state, c)
    ensures Parse(eat, m, rest) == Parse(eat, m.(line := m.line + u), [c] + tail)
  {
    var after;
    u, after := SplitRun(m.state, rest);
    RunSkips(eat, m, u, after);
    c, tail := CharTaken(eat, m.(line := m.line + u), after);
    assert after[0] == c;
  }

  /** The inverse of ReadField. */
  lemma {:induction false} FieldFound(eat: Machine, m: Parser, state: State, rest: string)
      returns (s: string, c: char, tail: string)
    requires m.state !in {Invalid, Complete, Body} && Runs(eat, state)
    requires rest != "" && eat(m, rest[0]) == Some(m.(state := state, line := m.line + [rest[0]]))
    requires Ends(Parse(eat, m, rest))
    ensures rest == s + ([c] + tail) && |s| > 0 && s[0] == rest[0] && AllStay(state, s[1..]) && !Stays(state, c)
    ensures Parse(eat, m, rest) == Parse(eat, m.(state := state, line := m.line + s), [c] + tail)
  {
    var next := m.(state := state, line := m.line + [rest[0]]);
    var u;
    assert Ends(Parse(eat, next, rest[1..]));
    u, c, tail := FindRun(eat, next, rest[1..]);
    s := [rest[0]] + u;
    assert s[1..] == u;
    Uncons(s, m.line, [c] + tail);
  }

  lemma {:induction false} Take(atoi: string -> int, eat: Machine, m: Parser, rest: string)
      returns (c: char, tail: string)
    requires IsSwitch(eat, atoi)
    requires m.state !in {Invalid, Complete, Body} && Ends(Parse(eat, m, rest))
    ensures rest == [c] + tail
    ensures match Eat(atoi, m, c)
      case None => Parse(eat, m, rest).threw
      case Some(next) => next.state != Invalid && Parse(eat, m, rest) == Parse(eat, next, tail)
  {
    SwitchRuns(atoi, eat, m.state);
    c, tail := CharTaken(eat, m, rest);
  }

  lemma {:induction false} TakeThis(atoi: string -> int, eat: Machine, m: Parser, c: char, tail: string)
    requires IsSwitch(eat, atoi)
    requires m.state !in {Invalid, Complete, Body} && Ends(Parse(eat, m, [c] + tail))
    requires Eat(atoi, m, c).Some?
    ensures Eat(atoi, m, c).value.state != Invalid && Ends(Parse(eat, Eat(atoi, m, c).value, tail))
  {
    var c2, tail2 := Take(atoi, eat, m, [c] + tail);
    assert ([c] + tail)[0] == c2 && ([c] + tail)[1..] == tail2;
    assert ([c] + tail)[1..] == tail;
  }

  lemma {:induction false} FindField(atoi: string -> int, eat: Machine, m: Parser, state: State, rest: string)
      returns (s: string, c: char, tail: string)
    requires IsSwitch(eat, atoi)
    requires {m.state, state} !! {Invalid, Complete, Body} && rest != ""
    requires Eat(atoi, m, rest[0]) == Some(m.(state := state, line := m.line + [rest[0]]))
    requires Ends(Parse(eat, m, rest))
    ensures rest == s + ([c] + tail) && |s| > 0 && s[0] == rest[0] && AllStay(state, s[1..]) && !Stays(state, c)
    ensures Parse(eat, m, rest) ==
            Parse(eat, m.(state := state, line := m.line + s), [c] + tail)
  {
    SwitchRuns(atoi, eat, state);
    s, c, tail := FieldFound(eat, m, state, rest);
  }

  /** A field, and a call that goes on behind the character that ends it. */
  lemma {:induction false} FieldEnds(atoi: string -> int, eat: Machine, m: Parser, state: State, rest: string)
      returns (s: string, c: char, tail: string)
    requires IsSwitch(eat, atoi)
    requires {m.state, state} !! {Invalid, Complete, Body} && rest != ""
    requires Eat(atoi, m, rest[0]) == Some(m.(state := state, line := m.line + [rest[0]]))
    requires Ends(Parse(eat, m, rest))
    ensures rest == s + ([c] + tail) && |s| > 0 && s[0] == rest[0] && AllStay(state, s[1..]) && !Stays(state, c)
    ensures match Eat(atoi, m.(state := state, line := m.line + s), c)
      case None => true
      case Some(next) => next.state != Invalid && Ends(Parse(eat, next, tail))
  {
    s, c, tail := FindField(atoi, eat, m, state, rest);
    var n := m.(state := state, line := m.line + s);
    if Eat(atoi, n, c).Some? {
      TakeThis(atoi, eat, n, c, tail);
    }
  }

  lemma {:induction false} FindKey(atoi: string -> int, eat: Machine, r: Request, rest: string)
      returns (key: string, tail: string)
    requires IsSwitch(eat, atoi)
    requires Ends(Parse(eat, Parser(BeforeParamKey, r, "", 0), rest))
    ensures |key| > 0 && !Gap(key[0]) && AllStay(ParamKey, key[1..]) && rest == key + (['='] + tail)
    ensures Ends(Parse(eat, Parser(BeforeParamValue, r, key + ['='], |key|), tail))
  {
    var m := Parser(BeforeParamKey, r, "", 0);
    var c1, tail1 := Take(atoi, eat, m, rest);
    var c2;
    key, c2, tail := FieldEnds(atoi, eat, m, ParamKey, rest);
    assert "" + key == key;
  }

  lemma {:induction false} FindValue(atoi: string -> int, eat: Machine, r: Request, line: string, cut: nat,
                                     rest: string)
      returns (value: string, c: char, tail: string)
    requires IsSwitch(eat, atoi)
    requires Ends(Parse(eat, Parser(BeforeParamValue, r, line, cut), rest))
    ensures |value| > 0 && !Gap(value[0]) && AllStay(ParamValue, value[1..])
    ensures rest == value + ([c] + tail) && (c == '&' || Blank(c))
  {
    var m := Parser(BeforeParamValue, r, line, cut);
    var c1, tail1 := Take(atoi, eat, m, rest);
    value, c, tail := FindField(atoi, eat, m, ParamValue, rest);
  }

  lemma {:induction false} FindPair(atoi: string -> int, eat: Machine, r: Request, rest: string)
      returns (p: Pair, c: char, tail: string)
    requires IsSwitch(eat, atoi)
    requires Ends(Parse(eat, Parser(BeforeParamKey, r, "", 0), rest))
    ensures PairOk(p) && (c == '&' || Blank(c)) && rest == p.key + (['='] + (p.value + ([c] + tail)))
  {
    var key, more := FindKey(atoi, eat, r, rest);
    var value;
    value, c, tail := FindValue(atoi, eat, r, key + ['='], |key|, more);
    p := Pair(key, value);
  }

  lemma {:induction false} FindPairs(atoi: string -> int, eat: Machine, r: Request, rest: string)
      returns (params: seq<Pair>, end: char, tail: string)
    requires IsSwitch(eat, atoi)
    requires Ends(Parse(eat, Parser(BeforeParamKey, r, "", 0), rest))
    ensures |params| > 0 && Blank(end) && forall i :: 0 <= i < |params| ==> PairOk(params[i])
    ensures rest == Query(params, '?', [end] + tail)[1..]
    decreases |rest|
  {
    var p, c, more := FindPair(atoi, eat, r, rest);
    ReadKey(atoi, eat, r, p, p.value + ([c] + more));
    ReadValue(atoi, eat, r, p, c, more);
    if c == '&' {
      var ps;
      ps, end, tail := FindPairs(atoi, eat, r.(params := r.params[p.key := p.value]), more);
      params := [p] + ps;
      assert params[1..] == ps;
      assert Query(ps, '&', [end] + tail) == ['&'] + more;
      assert Query(params, '?', [end] + tail) == ['?'] + rest;
    } else {
      params, end, tail := [p], c, more;
      assert Query(params[1..], '&', [end] + tail) == [end] + tail;
      assert Query(params, '?', [end] + tail) == ['?'] + rest;
    }
  }

  lemma {:induction false} FindQuery(atoi: string -> int, eat: Machine, r: Request, rest: string)
      returns (url: string, params: seq<Pair>, end: char, tail: string)
    requires IsSwitch(eat, atoi)
    requires Ends(Parse(eat, Parser(InUrl, r, "", 0), rest))
    ensures AllStay(InUrl, url) && Blank(end) && forall i :: 0 <= i < |params| ==> PairOk(params[i])
    ensures rest == url + Query(params, '?', [end] + tail)
  {
    SwitchRuns(atoi, eat, InUrl);
    var c, more;
    url, c, more := FindRun(eat, Parser(InUrl, r, "", 0), rest);
    assert "" + url == url;
    var m := Parser(InUrl, r, url, 0);
    if c == '?' {
      Step(atoi, eat, m, c, Parser(BeforeParamKey, r.(url := url), "", 0), more);
      params, end, tail := FindPairs(atoi, eat, r.(url := url), more);
      assert Query(params, '?', [end] + tail) == ['?'] + more;
    } else {
      params, end, tail := [], c, more;
    }
  }

  lemma {:induction false} FindProtocolName(atoi: string -> int, eat: Machine, r: Request, blanks: string, rest: string)
      returns (protocol: string, tail: string)
    requires IsSwitch(eat, atoi)
    requires Ends(Parse(eat, Parser(BeforeProtocol, r, blanks, 0), rest)) && rest != "" && !Blank(rest[0])
    ensures |protocol| > 0 && !Blank(protocol[0]) && AllStay(Protocol, protocol[1..])
    ensures rest == protocol + (['/'] + tail)
  {
    var c;
    protocol, c, tail := FindField(atoi, eat, Parser(BeforeProtocol, r, blanks, 0), Protocol, rest);
  }

  lemma {:induction false} FindProtocol(atoi: string -> int, eat: Machine, r: Request, rest: string)
      returns (blanks: string, protocol: string, tail: string)
    requires IsSwitch(eat, atoi)
    requires Ends(Parse(eat, Parser(BeforeProtocol, r, "", 0), rest))
    ensures AllStay(BeforeProtocol, blanks)
    ensures |protocol| > 0 && !Blank(protocol[0]) && AllStay(Protocol, protocol[1..])
    ensures rest == blanks + (protocol + (['/'] + tail))
  {
    SwitchRuns(atoi, eat, BeforeProtocol);
    var c, more;
    blanks, c, more := FindRun(eat, Parser(BeforeProtocol, r, "", 0), rest);
    assert "" + blanks == blanks;
    protocol, tail := FindProtocolName(atoi, eat, r, blanks, [c] + more);
  }

  lemma {:induction false} FindVersion(atoi: string -> int, eat: Machine, r: Request, rest: string)
      returns (version: string, tail: string)
    requires IsSwitch(eat, atoi)
    requires Ends(Parse(eat, Parser(BeforeVersion, r, "", 0), rest))
    ensures |version| > 0 && Digit(version[0]) && AllStay(Version, version[1..]) && rest == version + ([CR] + tail)
  {
    var c, more := Take(atoi, eat, Parser(BeforeVersion, r, "", 0), rest);
    version, c, tail := FieldEnds(atoi, eat, Parser(BeforeVersion, r, "", 0), Version, rest);
    assert "" + version == version;
  }

  /** The empty line, and a body. */
  ghost predicate IsEnd(tail: string) {
    |tail| >= 2 && tail[..2] == [CR, LF]
  }

  /** A header line that ends right after its colon. */
  ghost predicate IsStub(tail: string) {
    exists key, rest :: KeyOk(key) && tail == key + ([':', '\r'] + rest)
  }

  lemma {:induction false} FindEmptyLine(atoi: string -> int, eat: Machine, m: Parser, rest: string)
      returns (body: string)
    requires IsSwitch(eat, atoi)
    requires m.state == CrLfCr && Ends(Parse(eat, m, rest))
    ensures rest == [LF] + body
  {
    var c;
    c, body := Take(atoi, eat, m, rest);
  }

  lemma {:induction false} FindHeaderKey(atoi: string -> int, eat: Machine, r: Request, rest: string)
      returns (key: string, tail: string)
    requires IsSwitch(eat, atoi)
    requires Ends(Parse(eat, Parser(CrLf, r, "", 0), rest)) && rest != "" && rest[0] != CR && !Blank(rest[0])
    ensures KeyOk(key) && rest == key + ([':'] + tail)
    ensures Ends(Parse(eat, Parser(HeaderValue, r, key + [':'], |key|), tail))
  {
    var c2;
    key, c2, tail := FieldEnds(atoi, eat, Parser(CrLf, r, "", 0), HeaderKey, rest);
    assert "" + key == key;
  }

  lemma {:induction false} FindHeaderValue(atoi: string -> int, eat: Machine, r: Request, line: string, cut: nat,
                                           rest: string)
      returns (value: string, tail: string)
    requires IsSwitch(eat, atoi)
    requires Ends(Parse(eat, Parser(HeaderValue, r, line, cut), rest))
    ensures AllStay(HeaderValue, value) && rest == value + ([CR] + tail)
  {
    SwitchRuns(atoi, eat, HeaderValue);
    var c;
    value, c, tail := FindRun(eat, Parser(HeaderValue, r, line, cut), rest);
  }

  /** A header line, unless the line is a stub. */
  lemma {:induction false} FindHeader(atoi: string -> int, eat: Machine, r: Request, rest: string)
      returns (h: Header, tail: string)
    requires IsSwitch(eat, atoi)
    requires Ends(Parse(eat, Parser(CrLf, r, "", 0), rest)) && !IsStub(rest)
    requires rest != "" && rest[0] != CR && !Blank(rest[0])
    ensures HeaderOk(h) && rest == h.key + ([':', h.gap] + (h.value + ([CR] + tail)))
  {
    var key, more := FindHeaderKey(atoi, eat, r, rest);
    var line := key + [':'];
    var gap, after := Take(atoi, eat, Parser(HeaderValue, r, line, |key|), more);
    assert rest == key + ([':', gap] + after);
    var value;
    value, tail := FindHeaderValue(atoi, eat, r, line + [gap], |key|, after);
    h := Header(key, gap, value);
  }

  lemma {:induction false} FindNextLine(atoi: string -> int, eat: Machine, r: Request, rest: string)
    requires IsSwitch(eat, atoi)
    requires Ends(Parse(eat, Parser(CrLf, r, "", 0), rest))
    ensures rest != "" && !Blank(rest[0]) && (rest[0] == CR ==> IsEnd(rest))
  {
    var c, more := Take(atoi, eat, Parser(CrLf, r, "", 0), rest);
    if c == CR {
      var body := FindEmptyLine(atoi, eat, Eat(atoi, Parser(CrLf, r, "", 0), CR).value, more);
      assert [CR] + ([LF] + body) == [CR, LF] + body;
    }
  }

  lemma {:induction false} FindLines(atoi: string -> int, eat: Machine, r: Request, rest: string)
      returns (headers: seq<Header>, tail: string)
    requires IsSwitch(eat, atoi)
    requires Ends(Parse(eat, Parser(WhenCr, r, "", 0), rest))
    ensures forall i :: 0 <= i < |headers| ==> HeaderOk(headers[i])
    ensures rest == Lines(headers, tail) && (IsEnd(tail) || IsStub(tail))
    decreases |rest|
  {
    var c, more := Take(atoi, eat, Parser(WhenCr, r, "", 0), rest);
    FindNextLine(atoi, eat, r, more);
    if IsEnd(more) {
      headers, tail := [], more;
    } else if IsStub(more) {
      headers, tail := [], more;
    } else {
      var h, after := FindHeader(atoi, eat, r, more);
      ReadHeader(atoi, eat, r, h, after);
      var hs;
      hs, tail := FindLines(atoi, eat, r.(headers := r.headers[h.key := h.value]), after);
      headers := [h] + hs;
      assert headers[1..] == hs;
    }
  }

  lemma {:induction false} FindTail(atoi: string -> int, eat: Machine, r: Request, w: Wire, rest: string)
      returns (found: Wire, tail: string)
    requires IsSwitch(eat, atoi)
    requires Ends(Parse(eat, Parser(BeforeProtocol, r, "", 0), rest))
    ensures found == w.(blanks := found.blanks, protocol := found.protocol, version := found.version,
                        headers := found.headers)
    ensures TailOk(found) && rest == PrintTail(found, tail) && (IsEnd(tail) || IsStub(tail))
  {
    var blanks, protocol, t1 := FindProtocol(atoi, eat, r, rest);
    var w1 := w.(blanks := blanks, protocol := protocol, version := "0", headers := []);
    ReadProtocol(atoi, eat, r, w1, t1);
    var r1 := r.(protocol := blanks + protocol);
    var version, t2 := FindVersion(atoi, eat, r1, t1);
    var w2 := w1.(version := version);
    ReadVersion(atoi, eat, r1, w2, t2);
    var headers;
    headers, tail := FindLines(atoi, eat, r1.(version := version), t2);
    found := w2.(headers := headers);
  }

  lemma {:induction false} FindMethod(atoi: string -> int, eat: Machine, r: Request, gap: string, rest: string)
      returns (verb: string, sep: char, tail: string)
    requires IsSwitch(eat, atoi)
    requires Ends(Parse(eat, Parser(Start, r, gap, 0), rest)) && rest != "" && !Gap(rest[0])
    ensures |verb| > 0 && AllStay(Method, verb) && Blank(sep) && rest == verb + ([sep] + tail)
    ensures Ends(Parse(eat, Parser(InUrl, r.(verb := gap + verb), "", 0), tail))
  {
    var c1, t1 := Take(atoi, eat, Parser(Start, r, gap, 0), rest);
    verb, sep, tail := FieldEnds(atoi, eat, Parser(Start, r, gap, 0), Method, rest);
    assert verb == [verb[0]] + verb[1..];
  }

  lemma {:induction false} FindStart(atoi: string -> int, eat: Machine, r: Request, text: string)
      returns (gap: string, verb: string, sep: char, tail: string)
    requires IsSwitch(eat, atoi)
    requires Ends(Parse(eat, Fresh(r), text))
    ensures AllStay(Start, gap) && |verb| > 0 && AllStay(Method, verb) && Blank(sep)
    ensures text == gap + (verb + ([sep] + tail))
    ensures Ends(Parse(eat, Parser(InUrl, r.(verb := gap + verb), "", 0), tail))
  {
    SwitchRuns(atoi, eat, Start);
    var c, more;
    gap, c, more := FindRun(eat, Fresh(r), text);
    assert "" + gap == gap;
    verb, sep, tail := FindMethod(atoi, eat, r, gap, [c] + more);
  }

  /** What ends a call was printed, up to its last header line. */
  lemma {:induction false} FindHead(atoi: string -> int, eat: Machine, r: Request, text: string)
      returns (w: Wire, tail: string)
    requires IsSwitch(eat, atoi)
    requires Ends(Parse(eat, Fresh(r), text))
    ensures WellFormed(w) && text == PrintHead(w, tail) && (IsEnd(tail) || IsStub(tail))
  {
    var gap, verb, sep, t1 := FindStart(atoi, eat, r, text);
    var r1 := r.(verb := gap + verb);
    var url, params, end, t2 := FindQuery(atoi, eat, r1, t1);
    var w1 := Wire(gap, verb, sep, url, params, end, "", "x", "0", []);
    ReadUrl(atoi, eat, r1, w1, t2);
    w, tail := FindTail(atoi, eat, r1.(url := url, params := Overlay(r1.params, params)), w1, t2);
  }

  // ---------------------------------------------------------------- the main results

  lemma {:induction false} HeadThenStub(atoi: string -> int, eat: Machine, r: Request, w: Wire, tail: string)
    requires IsSwitch(eat, atoi)
    requires WellFormed(w) && IsStub(tail)
    ensures Parse(eat, Fresh(r), PrintHead(w, tail)) == Final(HeaderValue, ApplyHead(w, r), true)
  {
    var key, rest :| KeyOk(key) && tail == key + ([':', CR] + rest);
    ReadHead(atoi, eat, r, w, tail);
    ReadThrow(atoi, eat, ApplyHead(w, r), key, rest);
  }

  lemma {:induction false} HeadThenEnd(atoi: string -> int, eat: Machine, r: Request, w: Wire, tail: string)
    requires IsSwitch(eat, atoi)
    requires WellFormed(w) && IsEnd(tail)
    ensures PrintHead(w, tail) == Print(w, tail[2..]) && !Parse(eat, Fresh(r), PrintHead(w, tail)).threw
  {
    assert tail == [CR, LF] + tail[2..];
    ParseUndoesPrint(atoi, eat, r, w, tail[2..]);
  }

  /**
   The parser completes exactly the printed well-formed requests: the slices it
   stores and their delimiters are the whole message, in order.
   */
  lemma {:induction false} CompletesExactly(atoi: string -> int, eat: Machine, r: Request, text: string)
    requires IsSwitch(eat, atoi)
    ensures var f := Parse(eat, Fresh(r), text);
      f.state == Complete && !f.threw <==> exists w, body :: WellFormed(w) && text == Print(w, body)
    ensures forall w, body :: WellFormed(w) && text == Print(w, body) ==>
      Parse(eat, Fresh(r), text) == Final(Complete, Meaning(atoi, r, w, body), false)
  {
    var f := Parse(eat, Fresh(r), text);
    forall w, body | WellFormed(w) && text == Print(w, body)
      ensures f == Final(Complete, Meaning(atoi, r, w, body), false)
    {
      ParseUndoesPrint(atoi, eat, r, w, body);
    }
    if f.state == Complete && !f.threw {
      var w, tail := FindHead(atoi, eat, r, text);
      if IsStub(tail) {
        HeadThenStub(atoi, eat, r, w, tail);
      } else {
        HeadThenEnd(atoi, eat, r, w, tail);
      }
    }
  }

  /** The parser throws exactly when a header line of a well-formed beginning has nothing after its colon. */
  lemma {:induction false} ThrowsExactly(atoi: string -> int, eat: Machine, r: Request, text: string)
    requires IsSwitch(eat, atoi)
    ensures Parse(eat, Fresh(r), text).threw <==>
            exists w, tail :: WellFormed(w) && IsStub(tail) && text == PrintHead(w, tail)
    ensures forall w, tail :: WellFormed(w) && IsStub(tail) && text == PrintHead(w, tail) ==>
      Parse(eat, Fresh(r), text) == Final(HeaderValue, ApplyHead(w, r), true)
  {
    var f := Parse(eat, Fresh(r), text);
    forall w, tail | WellFormed(w) && IsStub(tail) && text == PrintHead(w, tail)
      ensures f == Final(HeaderValue, ApplyHead(w, r), true)
    {
      HeadThenStub(atoi, eat, r, w, tail);
    }
    if f.threw {
      var w, tail := FindHead(atoi, eat, r, text);
      if IsEnd(tail) {
        HeadThenEnd(atoi, eat, r, w, tail);
      }
    }
  }

  // ---------------------------------------------------------------- an example

  lemma {:induction false} RequestLinePrinted(w: Wire, rest: string)
    requires w == Wire("", "GET", ' ', "/", [], ' ', "", "RTSP", "1.0", [])
    ensures PrintHead(w, rest) == "GET / RTSP/1.0\r\n" + rest
  {
    var tail := PrintTail(w, rest);
    assert tail == "RTSP/1.0\r\n" + rest;
    assert Query(w.params, '?', [w.end] + tail) == " " + tail;
  }

  lemma {:induction false} RequestLineIsWellFormed(w: Wire)
    requires w == Wire("", "GET", ' ', "/", [], ' ', "", "RTSP", "1.0", [])
    ensures WellFormed(w)
  {
    assert AllStay(Protocol, w.protocol[1..]) && AllStay(Version, w.version[1..]) && AllStay(InUrl, w.url);
  }

  /** A header line that ends right after its colon makes the parser throw. */
  lemma {:induction false} StubThrows(atoi: string -> int, eat: Machine, r: Request)
    requires IsSwitch(eat, atoi)
    ensures Parse(eat, Fresh(r), "GET / RTSP/1.0\r\n" + "A:\r").threw
  {
    var w := Wire("", "GET", ' ', "/", [], ' ', "", "RTSP", "1.0", []);
    assert KeyOk("A") && "A:\r" == "A" + ([':', CR] + "");
    RequestLinePrinted(w, "A:\r");
    RequestLineIsWellFormed(w);
    HeadThenStub(atoi, eat, r, w, "A:\r");
  }

  /** A key of no pair keeps its old value, or stays unknown. */
  lemma {:induction false} OtherKeysStay(m: map<string, string>, pairs: seq<Pair>, k: string)
    requires forall i :: 0 <= i < |pairs| ==> pairs[i].key != k
    ensures k in Overlay(m, pairs) <==> k in m
    ensures k in m ==> Overlay(m, pairs)[k] == m[k]
    decreases |pairs|
  {
    if |pairs| > 0 {
      OtherKeysStay(m[pairs[0].key := pairs[0].value], pairs[1..], k);
    }
  }

  /** The last pair of a key wins. */
  lemma {:induction false} LastPairWins(m: map<string, string>, pairs: seq<Pair>, i: nat)
    requires i < |pairs| && forall j :: i < j < |pairs| ==> pairs[j].key != pairs[i].key
    ensures pairs[i].key in Overlay(m, pairs) && Overlay(m, pairs)[pairs[i].key] == pairs[i].value
    decreases |pairs|
  {
    var m1 := m[pairs[0].key := pairs[0].value];
    if i == 0 {
      OtherKeysStay(m1, pairs[1..], pairs[0].key);
    } else {
      LastPairWins(m1, pairs[1..], i - 1);
    }
  }
}
