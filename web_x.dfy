/** The request/response layer of 3rd/Simple-Web-Extra/server_extra_x.hpp:
    Request::load, Response and its dump as an HTTP/1.1 message (RFC 7230
    sections 3.1.2, 3.2 and 3.3.2), and the Multiplexer that runs the
    before-plugins, a handler and the after-plugins, turning an exception
    into a 404.  Handlers and plugins are functions from the response and
    the request to their new values or to an exception; json11 is a
    parameter. */
module WebExtra {
  import opened Wrappers
  import opened Strings
  import opened WebRfc

  /** The request as Simple-Web-Server hands it over. */
  datatype RawRequest = RawRequest(httpMethod: string, path: string, httpVersion: string,
                                   header: seq<(string, string)>, remoteAddress: string, remotePort: nat,
                                   pathMatch: seq<string>, content: string)

  /** Request: the raw request's fields and the query dictionary of its
      path.  The header multimap is kept in insertion order. */
  datatype Request = Request(httpMethod: string, path: string, httpVersion: string,
                             header: seq<(string, string)>, remoteAddress: string, remotePort: nat,
                             pathMatch: seq<string>, get: QueryDict, content: string)

  datatype Response = Response(status: int, reason: string, mime: string, header: seq<(string, string)>,
                               content: string)

  /** Response(): status 200, reason "OK", everything else empty. */
  function FreshResponse(): (r: Response)
    ensures r.status == 200 && r.reason == "OK" && r.mime == [] && r.header == [] && r.content == []
  {
    Response(200, "OK", [], [], [])
  }

  // ------------------------------------------------------------- load

  /** Request::load: the fields are taken over and the query dictionary is
      parsed from the path, which throws on a malformed query string. */
  function Load(raw: RawRequest): (r: Result<Request>)
    ensures r.Err? <==> ParseQuery(raw.path).Err?
    ensures r.Err? ==> r.error == RfcException
    ensures r.Ok? ==> r.value.get == ParseQuery(raw.path).value
    ensures r.Ok? ==> r.value == Request(raw.httpMethod, raw.path, raw.httpVersion, raw.header, raw.remoteAddress,
                                         raw.remotePort, raw.pathMatch, r.value.get, raw.content)
  {
    match ParseQuery(raw.path)
    case Err(e) => Err(RfcException)
    case Ok(q) =>
      Ok(Request(raw.httpMethod, raw.path, raw.httpVersion, raw.header, raw.remoteAddress, raw.remotePort,
                 raw.pathMatch, q, raw.content))
  }

  // ------------------------------------------------------------- dump

  function StatusLine(r: Response): string {
    "HTTP/1.1 " + IntToDecimal(r.status) + " " + r.reason + "\r\n"
  }

  function TypeLine(r: Response): string {
    if |r.mime| > 0 then "Content-Type: " + r.mime + "\r\n" else ""
  }

  function LengthLine(r: Response): string {
    "Content-Length: " + NatToDecimal(|r.content|) + "\r\n"
  }

  function HeaderLine(h: (string, string)): string {
    h.0 + ": " + h.1 + "\r\n"
  }

  function HeaderLines(h: seq<(string, string)>): string {
    if h == [] then "" else HeaderLines(h[..|h| - 1]) + HeaderLine(h[|h| - 1])
  }

  /** What follows the status line: the optional Content-Type, the
      Content-Length, the headers and the blank line. */
  function Fields(r: Response): string {
    TypeLine(r) + LengthLine(r) + HeaderLines(r.header) + "\r\n"
  }

  /** The text dump writes: the status line, the fields and the body. */
  function DumpText(r: Response): string {
    StatusLine(r) + Fields(r) + r.content
  }

  /** The message starts with the status line and ends with the body; the
      Content-Length it announces reads back as the body's length. */
  lemma DumpLayout(r: Response)
    ensures IsPrefix(StatusLine(r), DumpText(r))
    ensures var out := DumpText(r); |r.content| <= |out| && out[|out| - |r.content|..] == r.content
    ensures DigitsValue(NatToDecimal(|r.content|)) == |r.content|
  {
    Framed(StatusLine(r), Fields(r), r.content);
    NatToDecimalValue(|r.content|);
  }

  lemma Framed(a: string, b: string, c: string)
    ensures IsPrefix(a, a + b + c)
    ensures var s := a + b + c; |c| <= |s| && s[|s| - |c|..] == c
  {
    var s := a + b + c;
    assert s[..|a|] == a;
    assert s[|a + b|..] == c;
  }

  /** The fields start with a Content-Type line exactly when the mime type
      is set. */
  lemma DumpContentType(r: Response)
    ensures |r.mime| > 0 <==> IsPrefix("Content-Type: ", Fields(r))
  {
    var rest := LengthLine(r) + HeaderLines(r.header) + "\r\n";
    Regroup(TypeLine(r), LengthLine(r), HeaderLines(r.header), "\r\n");
    assert Fields(r) == TypeLine(r) + rest;
    if |r.mime| > 0 {
      PrefixGrows("Content-Type: ", "Content-Type: " + r.mime + "\r\n", rest);
    } else {
      assert Fields(r) == rest;
      PrefixGrows("Content-Length: ", LengthLine(r), HeaderLines(r.header) + "\r\n");
      Regroup("", LengthLine(r), HeaderLines(r.header), "\r\n");
      assert rest[8] == 'L';
    }
  }

  lemma PrefixGrows(p: string, s: string, t: string)
    requires IsPrefix(p, s)
    ensures IsPrefix(p, s + t)
  {
    assert (s + t)[..|p|] == s[..|p|];
  }

  lemma Regroup(a: string, b: string, c: string, d: string)
    ensures a + b + c + d == a + (b + c + d)
  {
  }

  /** Response::dump: the lines are written to the stream one after the
      other, the headers in a loop. */
  method Dump(r: Response) returns (out: string)
    ensures out == DumpText(r)
  {
    out := StartLines(r);
    out := out + LengthLine(r);
    out := WriteHeaders(out, r.header);
    out := out + "\r\n";
    HeadIsFields(r, out);
    out := out + r.content;
  }

  /** The status line, then the Content-Type line when there is a mime
      type. */
  method StartLines(r: Response) returns (out: string)
    ensures out == StatusLine(r) + TypeLine(r)
  {
    out := StatusLine(r);
    if |r.mime| > 0 {
      out := out + TypeLine(r);
    } else {
      assert TypeLine(r) == [];
      assert out == out + [];
    }
  }

  lemma HeadIsFields(r: Response, out: string)
    requires out == StatusLine(r) + TypeLine(r) + LengthLine(r) + HeaderLines(r.header) + "\r\n"
    ensures out == StatusLine(r) + Fields(r)
  {
    Regroup(StatusLine(r), TypeLine(r), LengthLine(r) + HeaderLines(r.header), "\r\n");
    Regroup(TypeLine(r), LengthLine(r), HeaderLines(r.header), "\r\n");
  }

  /** The loop of dump over the headers. */
  method WriteHeaders(start: string, h: seq<(string, string)>) returns (out: string)
    ensures out == start + HeaderLines(h)
  {
    out := start;
    for i := 0 to |h|
      invariant out == start + HeaderLines(h[..i])
    {
      assert h[..i + 1][..i] == h[..i];
      out := out + HeaderLine(h[i]);
    }
    assert h[..|h|] == h;
  }

  // ---------------------------------------------------------- plugins

  /** What a plugin or handler call ends in: the response and request it
      leaves, or an exception thrown with the response and request as they
      were at the throw.  The message is None for an exception that is not
      a std::exception. */
  datatype Step = Returned(resp: Response, req: Request) | Threw(resp: Response, req: Request, what: Option<string>)

  type Handler = (Response, Request) -> Step

  /** Calling ps in order, stopping at the first exception. */
  function Run(ps: seq<Handler>, resp: Response, req: Request): Step {
    if ps == [] then Returned(resp, req)
    else
      match Run(ps[..|ps| - 1], resp, req)
      case Returned(r, q) => ps[|ps| - 1](r, q)
      case Threw(r, q, w) => Threw(r, q, w)
  }

  lemma RunOne(h: Handler, resp: Response, req: Request)
    ensures Run([h], resp, req) == h(resp, req)
  {
    assert [h][..0] == [];
  }

  /** Where a run continues: with ps, unless it has already thrown. */
  function Then(s: Step, ps: seq<Handler>): Step {
    match s
    case Returned(r, q) => Run(ps, r, q)
    case Threw(r, q, w) => s
  }

  /** Running a then b is running a and continuing with b: the calls go in
      list order and an exception skips all that follow. */
  lemma {:induction false} RunAppend(a: seq<Handler>, b: seq<Handler>, resp: Response, req: Request)
    ensures Run(a + b, resp, req) == Then(Run(a, resp, req), b)
  {
    if b != [] {
      var b0 := b[..|b| - 1];
      RunAppend(a, b0, resp, req);
      assert (a + b)[..|a + b| - 1] == a + b0;
    } else {
      assert a + b == a;
    }
  }

  /** The loop that calls each plugin in turn on the response and the request,
      left early by an exception. */
  method RunLoop(ps: seq<Handler>, resp: Response, req: Request) returns (s: Step)
    ensures s == Run(ps, resp, req)
  {
    s := Returned(resp, req);
    var i := 0;
    while i < |ps| && s.Returned?
      invariant 0 <= i <= |ps|
      invariant s == Run(ps[..i], resp, req)
    {
      assert ps[..i + 1][..i] == ps[..i];
      s := ps[i](s.resp, s.req);
      i := i + 1;
    }
    RunAppend(ps[..i], ps[i..], resp, req);
    assert ps[..i] + ps[i..] == ps;
  }

  /** The message of a caught exception. */
  function Message(what: Option<string>): string {
    match what
    case Some(m) => m
    case None => "Unknown exception"
  }

  /** handle_request's catch: the status becomes 404 and the body the
      message; the reason is left as it was. */
  function Caught(s: Step): (Response, Request) {
    match s
    case Returned(r, q) => (r, q)
    case Threw(r, q, w) => (r.(status := 404, content := Message(w)), q)
  }

  /** handle_request: the before-plugins, the handler and the after-plugins
      in order, an exception ending the run in a 404. */
  function Handled(before: seq<Handler>, handler: Handler, after: seq<Handler>, resp: Response, req: Request)
    : (Response, Request)
  {
    Caught(Run(before + [handler] + after, resp, req))
  }

  /** The outcome of handle_request, stage by stage: without an exception the
      after-plugins get what the handler left; an exception anywhere gives
      404 with the message as body and the reason of the moment of the
      throw, and skips the rest. */
  lemma HandledStages(before: seq<Handler>, handler: Handler, after: seq<Handler>, resp: Response, req: Request)
    ensures Handled(before, handler, after, resp, req) == Caught(Then(Then(Run(before, resp, req), [handler]), after))
    ensures var s := Then(Then(Run(before, resp, req), [handler]), after);
      s.Threw? ==> Handled(before, handler, after, resp, req).0 == s.resp.(status := 404, content := Message(s.what))
  {
    RunAppend(before + [handler], after, resp, req);
    RunAppend(before, [handler], resp, req);
  }

  /** A handler that throws leaves the after-plugins out. */
  lemma HandlerThrowSkipsAfter(before: seq<Handler>, handler: Handler, after: seq<Handler>, resp: Response,
                               req: Request)
    ensures Then(Run(before, resp, req), [handler]).Threw? ==>
      Handled(before, handler, after, resp, req) == Handled(before, handler, [], resp, req)
  {
    RunAppend(before, [handler], resp, req);
    RunAppend(before + [handler], after, resp, req);
    RunAppend(before + [handler], [], resp, req);
    assert before + [handler] + [] == before + [handler];
  }

  /** An exception thrown on a fresh response gives "404 OK". */
  lemma NotFoundOk(msg: string, req: Request)
    ensures var thrower: Handler := (r, q) => Threw(r, q, Some(msg));
      Handled([], thrower, [], FreshResponse(), req).0 == Response(404, "OK", [], [], msg)
  {
    var thrower: Handler := (r, q) => Threw(r, q, Some(msg));
    assert [] + [thrower] + [] == [thrower];
    RunOne(thrower, FreshResponse(), req);
  }

  // ------------------------------------------------------------- json

  /** The json11 operations used: the null value, parse (with its error
      text, empty on success) and dump. */
  datatype JsonLib<!J> = JsonLib(nullValue: J, parse: string -> (J, string), dump: J -> string)

  /** A JSON handler call: the output it filled or an exception. */
  datatype JsonStep<J> = Filled(output: J) | Failed(what: Option<string>)

  /** handler(output, input). */
  type JsonHandler<!J> = (J, J) -> JsonStep<J>

  /** handle_json_request's catch: 404, body "{}" and an Error header with
      the message. */
  function JsonCaught(r: Response, q: Request, what: Option<string>): (Response, Request) {
    (r.(status := 404, content := "{}", header := r.header + [("Error", Message(what))]), q)
  }

  /** The input of the handler: null for an empty body, else the parsed
      body, or the exception for a parse error. */
  function JsonInput<J>(lib: JsonLib<J>, content: string): Result<J> {
    if |content| == 0 then Ok(lib.nullValue)
    else
      var p := lib.parse(content);
      if |p.1| > 0 then Err(RuntimeError("json error: " + p.1)) else Ok(p.0)
  }

  /** The exception text of an input that does not parse. */
  function ErrorText(e: Error): Option<string> {
    match e
    case RuntimeError(m) => Some(m)
    case _ => None
  }

  /** handle_json_request after the before-plugins. */
  function JsonRest<J>(lib: JsonLib<J>, handler: JsonHandler<J>, after: seq<Handler>, r: Response, q: Request)
    : (Response, Request)
  {
    match JsonInput(lib, q.content)
    case Err(e) => JsonCaught(r, q, ErrorText(e))
    case Ok(input) =>
      match handler(lib.nullValue, input)
      case Failed(w) => JsonCaught(r, q, w)
      case Filled(output) =>
        match Run(after, r.(mime := "application/javascript", content := lib.dump(output)), q)
        case Returned(r2, q2) => (r2, q2)
        case Threw(r2, q2, w) => JsonCaught(r2, q2, w)
  }

  /** handle_json_request. */
  function JsonHandled<J>(lib: JsonLib<J>, before: seq<Handler>, handler: JsonHandler<J>, after: seq<Handler>,
                          resp: Response, req: Request): (Response, Request)
  {
    match Run(before, resp, req)
    case Threw(r, q, w) => JsonCaught(r, q, w)
    case Returned(r, q) => JsonRest(lib, handler, after, r, q)
  }

  /** A body that does not parse never reaches the handler: the answer is
      404 with "{}" and the parser's error in the Error header. */
  lemma JsonParseError<J>(lib: JsonLib<J>, handler: JsonHandler<J>, after: seq<Handler>, r: Response, q: Request)
    requires |q.content| > 0 && |lib.parse(q.content).1| > 0
    ensures JsonRest(lib, handler, after, r, q)
      == (r.(status := 404, content := "{}",
             header := r.header + [("Error", "json error: " + lib.parse(q.content).1)]), q)
  {
  }

  /** An empty body hands the handler null, and a handler that fills its
      output makes the JSON text of the output the body, typed
      application/javascript, before the after-plugins run. */
  lemma JsonFilled<J>(lib: JsonLib<J>, handler: JsonHandler<J>, after: seq<Handler>, r: Response, q: Request)
    requires |q.content| == 0 && handler(lib.nullValue, lib.nullValue).Filled?
    ensures var body := lib.dump(handler(lib.nullValue, lib.nullValue).output);
      var s := Run(after, r.(mime := "application/javascript", content := body), q);
      JsonRest(lib, handler, after, r, q) == (if s.Returned? then (s.resp, s.req) else JsonCaught(s.resp, s.req, s.what))
  {
  }

  /** An exception of a before-plugin leaves the handler and the
      after-plugins out: any other handler and after-plugins give the same
      answer, a 404 with "{}" and the Error header. */
  lemma JsonBeforeThrows<J>(lib: JsonLib<J>, before: seq<Handler>, handler: JsonHandler<J>, after: seq<Handler>,
                            handler': JsonHandler<J>, after': seq<Handler>, resp: Response, req: Request)
    requires Run(before, resp, req).Threw?
    ensures JsonHandled(lib, before, handler, after, resp, req) == JsonHandled(lib, before, handler', after', resp, req)
    ensures var s := Run(before, resp, req); var out := JsonHandled(lib, before, handler, after, resp, req).0;
      out.status == 404 && out.content == "{}" && out.header == s.resp.header + [("Error", Message(s.what))]
  {
  }

  // ------------------------------------------------------ multiplexer

  /** Multiplexer: the plugins run before and after every handler.  The
      servers it registers with are not modelled. */
  class Multiplexer {
    var before: seq<Handler>
    var after: seq<Handler>

    constructor ()
      ensures before == [] && after == []
    {
      before, after := [], [];
    }

    method UseBefore(plugin: Handler)
      modifies this
      ensures before == old(before) + [plugin] && after == old(after)
    {
      before := before + [plugin];
    }

    method UseAfter(plugin: Handler)
      modifies this
      ensures after == old(after) + [plugin] && before == old(before)
    {
      after := after + [plugin];
    }

    method HandleRequest(resp: Response, req: Request, handler: Handler) returns (resp': Response, req': Request)
      ensures (resp', req') == Handled(before, handler, after, resp, req)
    {
      var s := RunLoop(before, resp, req);
      if s.Returned? {
        s := handler(s.resp, s.req);
        if s.Returned? {
          s := RunLoop(after, s.resp, s.req);
        }
      }
      HandledStages(before, handler, after, resp, req);
      ghost var s0 := Run(before, resp, req);
      if s0.Returned? {
        RunOne(handler, s0.resp, s0.req);
      }
      if s.Threw? {
        resp', req' := s.resp.(status := 404, content := Message(s.what)), s.req;
      } else {
        resp', req' := s.resp, s.req;
      }
    }

    method HandleJsonRequest<J>(lib: JsonLib<J>, resp: Response, req: Request, handler: JsonHandler<J>)
      returns (resp': Response, req': Request)
      ensures (resp', req') == JsonHandled(lib, before, handler, after, resp, req)
    {
      var s := RunLoop(before, resp, req);
      if s.Threw? {
        return JsonCaught(s.resp, s.req, s.what).0, s.req;
      }
      var r, q := s.resp, s.req;
      var input := lib.nullValue;
      var output := lib.nullValue;
      if |q.content| > 0 {
        var p := lib.parse(q.content);
        input := p.0;
        if |p.1| > 0 {
          return JsonCaught(r, q, Some("json error: " + p.1)).0, q;
        }
      }
      var h := handler(output, input);
      if h.Failed? {
        return JsonCaught(r, q, h.what).0, q;
      }
      r := r.(mime := "application/javascript", content := lib.dump(h.output));
      var t := RunLoop(after, r, q);
      if t.Threw? {
        return JsonCaught(t.resp, t.req, t.what).0, t.req;
      }
      resp', req' := t.resp, t.req;
    }

    /** The resource added by add: the request is loaded outside the try of
        handle_request, so a malformed query string escapes as an exception
        instead of a 404; otherwise the dump of the handled response. */
    method Serve(raw: RawRequest, handler: Handler) returns (r: Result<string>)
      ensures ParseQuery(raw.path).Err? ==> r == Err(RfcException)
      ensures ParseQuery(raw.path).Ok? ==>
        r == Ok(DumpText(Handled(before, handler, after, FreshResponse(), Load(raw).value).0))
    {
      var req := Load(raw);
      if req.Err? {
        return Err(req.error);
      }
      var resp, _ := HandleRequest(FreshResponse(), req.value, handler);
      var text := Dump(resp);
      r := Ok(text);
    }
  }
}
