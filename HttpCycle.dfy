/**
 * One ASGI `http` request/response cycle: the application's `send`
 * messages must arrive as one `http.response.start` followed by
 * `http.response.body` messages, the last of them without `more_body`;
 * body chunks are collected into a buffer, and an application that
 * raises is answered with a 500 response.
 */
module HttpCycle {
  import opened Wrappers
  import opened Text

  type Bytes = seq<byte>

  /** ASGI headers: a list of `[name, value]` byte-string pairs. */
  type Headers = seq<seq<Bytes>>

  /** `HTTPCycleState`. */
  datatype Phase = Request | Response | Complete

  /** Position of a phase in the only order the cycle goes through. */
  function Rank(p: Phase): nat {
    match p
    case Request => 0
    case Response => 1
    case Complete => 2
  }

  const StartType := "http.response.start"
  const BodyType := "http.response.body"

  /**
   * A message the application passes to `send`. Each key may be missing
   * from the dictionary; `kind` is the `type` key.
   */
  datatype SendMessage = SendMessage(
    kind: Option<string>,
    status: Option<int>,
    headers: Option<Headers>,
    body: Option<Bytes>,
    moreBody: Option<bool>)

  /** A message waiting in `app_queue` for the application's `receive`. */
  datatype ReceiveMessage =
    | HttpRequest(body: Bytes, moreBody: bool)
    | HttpDisconnect

  /** What `send` raises: `UnexpectedMessage`, or a `KeyError` for a missing key. */
  datatype SendError =
    | UnexpectedMessage(kind: string)
    | KeyError(key: string)

  /**
   * The attributes of an `HTTPCycle`. `status`, `headers` and `body` are
   * `None` while the attribute has not been assigned yet.
   */
  datatype Snapshot = Snapshot(
    state: Phase,
    status: Option<int>,
    headers: Option<Headers>,
    body: Option<Bytes>,
    buffer: Bytes,
    bufferClosed: bool,
    queue: seq<ReceiveMessage>)

  /** `message.get("body", b"")`. */
  function BodyOf(m: SendMessage): Bytes {
    if m.body.Some? then m.body.value else []
  }

  /** `message.get("more_body", False)`. */
  predicate MoreBody(m: SendMessage) {
    m.moreBody == Some(true)
  }

  /** `message.get("headers", [])`. */
  function HeadersOf(m: SendMessage): Headers {
    if m.headers.Some? then m.headers.value else []
  }

  /** A fresh cycle: `REQUEST`, an empty buffer, and the request body queued for `receive`. */
  function Initial(requestBody: Bytes): (s: Snapshot)
    ensures s.state == Request && s.buffer == [] && !s.bufferClosed
    ensures s.queue == [HttpRequest(requestBody, false)]
  {
    Snapshot(Request, None, None, None, [], false, [HttpRequest(requestBody, false)])
  }

  /** One call to `send(message)`: the attributes afterwards and what it raised, if anything. */
  function Step(s: Snapshot, m: SendMessage): (Snapshot, Option<SendError>) {
    match m.kind
    case None => (s, Some(KeyError("type")))
    case Some(k) =>
      if s.state == Request && k == StartType then
        if m.status.None? then (s, Some(KeyError("status")))
        else (s.(status := m.status, headers := Some(HeadersOf(m)), state := Response), None)
      else if s.state == Response && k == BodyType then
        var buffer := s.buffer + BodyOf(m);
        if MoreBody(m) then (s.(buffer := buffer), None)
        else (s.(buffer := buffer, body := Some(buffer), bufferClosed := true, state := Complete,
                 queue := s.queue + [HttpDisconnect]), None)
      else (s, Some(UnexpectedMessage(k)))
  }

  /**
   * Exactly these `send` calls succeed: a start with a status in `REQUEST`,
   * a body chunk in `RESPONSE`. Every other call raises `KeyError` for a
   * missing `type`, `KeyError` for a start without `status` in `REQUEST`,
   * and `UnexpectedMessage` for any other state and type.
   */
  lemma StepAccepts(s: Snapshot, m: SendMessage)
    ensures Step(s, m).1.None? <==>
      m.kind.Some? &&
      ((s.state == Request && m.kind.value == StartType && m.status.Some?) ||
       (s.state == Response && m.kind.value == BodyType))
    ensures Step(s, m).1.Some? ==>
      Step(s, m).1 == Some(
        if m.kind.None? then KeyError("type")
        else if s.state == Request && m.kind.value == StartType then KeyError("status")
        else UnexpectedMessage(m.kind.value))
  {
  }

  /** A `send` that raises leaves every attribute as it was. */
  lemma StepErrorUnchanged(s: Snapshot, m: SendMessage)
    requires Step(s, m).1.Some?
    ensures Step(s, m).0 == s
  {
  }

  /**
   * The defaults of `send`: a missing `headers` is `[]`, a missing `body`
   * is `b""` and a missing `more_body` is false.
   */
  lemma StepDefaults(s: Snapshot, m: SendMessage, status: int)
    ensures Step(s, m.(headers := None)) == Step(s, m.(headers := Some([])))
    ensures Step(s, m.(body := None)) == Step(s, m.(body := Some([])))
    ensures Step(s, m.(moreBody := None)) == Step(s, m.(moreBody := Some(false)))
    ensures s.state == Request ==>
      Step(s, SendMessage(Some(StartType), Some(status), None, None, None))
        == (s.(status := Some(status), headers := Some([]), state := Response), None)
    ensures s.state == Response ==>
      Step(s, SendMessage(Some(BodyType), None, None, None, None))
        == (s.(body := Some(s.buffer), bufferClosed := true, state := Complete,
               queue := s.queue + [HttpDisconnect]), None)
  {
    assert s.buffer + [] == s.buffer;
  }

  /** The state only moves forward, and by one phase at most. */
  lemma StepForward(s: Snapshot, m: SendMessage)
    ensures Rank(s.state) <= Rank(Step(s, m).0.state) <= Rank(s.state) + 1
  {
  }

  /**
   * The application's `send` calls in order; a call that raises ends the
   * application with that exception, which it does not catch.
   */
  function Drive(s: Snapshot, sends: seq<SendMessage>): (r: (Snapshot, bool))
    ensures Rank(s.state) <= Rank(r.0.state)
    decreases |sends|
  {
    if sends == [] then (s, false)
    else
      var (s1, e) := Step(s, sends[0]);
      StepForward(s, sends[0]);
      if e.Some? then (s1, true) else Drive(s1, sends[1..])
  }

  /** The application as the cycle sees it: the messages it sends, then whether it raises. */
  datatype App = App(sends: seq<SendMessage>, raises: bool)

  const ServerError: Bytes := AsciiBytes("Internal Server Error")
  const ErrorHeaders: Headers := [[AsciiBytes("content-type"), AsciiBytes("text/plain; charset=utf-8")]]

  const ErrorStart := SendMessage(Some(StartType), Some(500), Some(ErrorHeaders), None, None)
  const ErrorBody := SendMessage(Some(BodyType), None, None, Some(ServerError), Some(false))

  /** The `except` branch of `run`. */
  function Recover(s: Snapshot): Snapshot {
    if s.state == Request then Step(Step(s, ErrorStart).0, ErrorBody).0
    else if s.state != Complete then
      s.(status := Some(500), body := Some(ServerError), headers := Some(ErrorHeaders))
    else s
  }

  /** `run(app)`. */
  function RunSpec(s: Snapshot, app: App): Snapshot {
    var (s1, raised) := Drive(s, app.sends);
    if raised || app.raises then Recover(s1) else s1
  }

  // ---------------------------------------------------------------------------
  // Properties of the specification

  function Concat(chunks: seq<Bytes>): Bytes {
    if chunks == [] then [] else chunks[0] + Concat(chunks[1..])
  }

  function Chunk(b: Bytes, more: bool): SendMessage {
    SendMessage(Some(BodyType), None, None, Some(b), Some(more))
  }

  /** Body messages carrying `chunks`, every one but the last announcing more. */
  function Chunks(chunks: seq<Bytes>): (r: seq<SendMessage>)
    ensures |r| == |chunks|
  {
    if chunks == [] then []
    else [Chunk(chunks[0], |chunks| > 1)] + Chunks(chunks[1..])
  }

  /**
   * In `RESPONSE`, body chunks go to the buffer; after the last one the
   * body is everything buffered, in order, and a disconnect is queued.
   */
  lemma {:induction false} DriveChunks(s: Snapshot, chunks: seq<Bytes>)
    requires s.state == Response && chunks != []
    ensures var (r, raised) := Drive(s, Chunks(chunks));
      !raised && r.state == Complete && r.body == Some(s.buffer + Concat(chunks))
      && r.status == s.status && r.headers == s.headers
      && r.queue == s.queue + [HttpDisconnect] && r.bufferClosed
    decreases |chunks|
  {
    var ms := Chunks(chunks);
    var (s1, e) := Step(s, ms[0]);
    assert ms[0] == Chunk(chunks[0], |chunks| > 1);
    if |chunks| == 1 {
      assert ms[1..] == [];
      assert Concat(chunks) == chunks[0] by {
        assert chunks[1..] == [];
        assert Concat(chunks[1..]) == [];
        assert chunks[0] + [] == chunks[0];
      }
      assert Drive(s, ms) == Drive(s1, ms[1..]) == (s1, false);
    } else {
      assert ms[1..] == Chunks(chunks[1..]);
      DriveChunks(s1, chunks[1..]);
      assert s.buffer + chunks[0] + Concat(chunks[1..]) == s.buffer + Concat(chunks);
    }
  }

  /** A well-behaved application: a start, then its body in chunks. */
  lemma WellBehavedCycle(requestBody: Bytes, status: int, headers: Headers, chunks: seq<Bytes>)
    requires chunks != []
    ensures var r := RunSpec(Initial(requestBody),
      App([SendMessage(Some(StartType), Some(status), Some(headers), None, None)] + Chunks(chunks), false));
      r.state == Complete && r.status == Some(status) && r.headers == Some(headers)
      && r.body == Some(Concat(chunks))
      && r.queue == [HttpRequest(requestBody, false), HttpDisconnect]
  {
    var start := SendMessage(Some(StartType), Some(status), Some(headers), None, None);
    var sends := [start] + Chunks(chunks);
    var s1 := Step(Initial(requestBody), start).0;
    assert sends[0] == start && sends[1..] == Chunks(chunks);
    DriveChunks(s1, chunks);
    assert s1.buffer + Concat(chunks) == Concat(chunks);
  }

  /** Once `COMPLETE`, every `send` raises `UnexpectedMessage` (or `KeyError` without a type). */
  lemma CompleteRejectsAll(s: Snapshot, m: SendMessage)
    requires s.state == Complete
    ensures Step(s, m) == (s, Some(if m.kind.Some? then UnexpectedMessage(m.kind.value) else KeyError("type")))
  {
  }

  /** A response body is never sent before the response start. */
  lemma BodyBeforeStartRejected(s: Snapshot, m: SendMessage)
    requires s.state == Request && m.kind == Some(BodyType)
    ensures Step(s, m) == (s, Some(UnexpectedMessage(BodyType)))
  {
  }

  lemma ErrorBodyBytes()
    ensures ServerError == [73, 110, 116, 101, 114, 110, 97, 108, 32, 83, 101, 114, 118, 101, 114, 32, 69, 114, 114, 111, 114]
  {
  }

  /** An application that raises before starting the response gets a complete 500 response. */
  lemma RaiseInRequest(s: Snapshot)
    requires s.state == Request
    ensures var r := Recover(s);
      r.state == Complete && r.status == Some(500) && r.headers == Some(ErrorHeaders)
      && r.body == Some(s.buffer + ServerError) && r.queue == s.queue + [HttpDisconnect]
  {
  }

  /**
   * An application that raises after starting the response has its
   * status, headers and body replaced; the state stays `RESPONSE`.
   */
  lemma RaiseInResponse(s: Snapshot)
    requires s.state == Response
    ensures var r := Recover(s);
      r == s.(status := Some(500), body := Some(ServerError), headers := Some(ErrorHeaders))
      && r.state == Response
  {
  }

  /** Raising once the response is complete changes nothing. */
  lemma RaiseInComplete(s: Snapshot)
    requires s.state == Complete
    ensures Recover(s) == s
  {
  }

  /** An application that raises at once, on a fresh cycle, yields the bare 500 response. */
  lemma RaisingAppOnFreshCycle(requestBody: Bytes)
    ensures var r := RunSpec(Initial(requestBody), App([], true));
      r.state == Complete && r.status == Some(500) && r.headers == Some(ErrorHeaders)
      && r.body == Some(ServerError)
  {
    RaiseInRequest(Initial(requestBody));
    assert [] + ServerError == ServerError;
  }

  /** A message sent out of order is an exception: `run` turns it into the 500 response too. */
  lemma OutOfOrderSendIsServerError(requestBody: Bytes, b: Bytes)
    ensures var r := RunSpec(Initial(requestBody), App([Chunk(b, false)], false));
      r.state == Complete && r.status == Some(500) && r.body == Some(ServerError)
  {
    var s := Initial(requestBody);
    assert Step(s, Chunk(b, false)) == (s, Some(UnexpectedMessage(BodyType)));
    assert Drive(s, [Chunk(b, false)]) == (s, true);
    RaiseInRequest(s);
    assert [] + ServerError == ServerError;
  }

  /** `run` never moves the state backwards. */
  lemma RunForward(s: Snapshot, app: App)
    ensures Rank(s.state) <= Rank(RunSpec(s, app).state)
  {
    var (s1, raised) := Drive(s, app.sends);
    if s1.state == Request {
      StepForward(s1, ErrorStart);
      StepForward(Step(s1, ErrorStart).0, ErrorBody);
    }
  }

  // ---------------------------------------------------------------------------
  // The object

  /** `HTTPCycle`. */
  class HttpCycle {
    var state: Phase
    var status: Option<int>
    var headers: Option<Headers>
    var body: Option<Bytes>
    var buffer: Bytes
    var bufferClosed: bool
    var appQueue: seq<ReceiveMessage>

    function View(): Snapshot
      reads this
    {
      Snapshot(state, status, headers, body, buffer, bufferClosed, appQueue)
    }

    /** `HTTPCycle(scope, body)`. */
    constructor (requestBody: Bytes)
      ensures View() == Initial(requestBody)
      ensures state == Request && appQueue == [HttpRequest(requestBody, false)]
    {
      state := Request;
      status := None;
      headers := None;
      body := None;
      buffer := [];
      bufferClosed := false;
      appQueue := [HttpRequest(requestBody, false)];
    }

    /** `send(message)`. */
    method Send(m: SendMessage) returns (error: Option<SendError>)
      modifies this
      ensures (View(), error) == Step(old(View()), m)
      ensures error.Some? ==> View() == old(View())
      ensures Rank(old(state)) <= Rank(state)
    {
      if m.kind.None? {
        return Some(KeyError("type"));
      }
      var k := m.kind.value;
      if state == Request && k == StartType {
        if m.status.None? {
          return Some(KeyError("status"));
        }
        status := m.status;
        headers := Some(HeadersOf(m));
        state := Response;
        return None;
      } else if state == Response && k == BodyType {
        buffer := buffer + BodyOf(m);
        if !MoreBody(m) {
          body := Some(buffer);
          bufferClosed := true;
          state := Complete;
          appQueue := appQueue + [HttpDisconnect];
        }
        return None;
      }
      return Some(UnexpectedMessage(k));
    }

    /** `run(app)`: the application's sends, then the exception handler if it raised. */
    method Run(app: App)
      modifies this
      ensures View() == RunSpec(old(View()), app)
    {
      var i := 0;
      var raised := false;
      while i < |app.sends| && !raised
        invariant 0 <= i <= |app.sends|
        invariant raised ==> Drive(old(View()), app.sends) == (View(), true)
        invariant !raised ==> Drive(old(View()), app.sends) == Drive(View(), app.sends[i..])
        decreases |app.sends| - i, if raised then 0 else 1
      {
        assert app.sends[i..][0] == app.sends[i];
        assert app.sends[i..][1..] == app.sends[i + 1..];
        var error := Send(app.sends[i]);
        if error.Some? {
          raised := true;
        }
        i := i + 1;
      }
      if !raised {
        assert app.sends[i..] == [];
      }
      if raised || app.raises {
        if state == Request {
          var e1 := Send(ErrorStart);
          var e2 := Send(ErrorBody);
        } else if state != Complete {
          status := Some(500);
          body := Some(ServerError);
          headers := Some(ErrorHeaders);
        }
      }
    }
  }
}
