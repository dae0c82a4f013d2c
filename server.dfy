/**
 * NanoHTTPserver: the listener's run state, the registry of connection
 * workers and the request counters, the handler list and its dispatcher,
 * and the per-connection worker loop.
 *
 * Threads and sockets are not modelled: the listener thread is a sequence
 * of calls (BeginListening, Accept, EndListening), a socket is an object
 * with a closed flag, and a worker's loop runs as one call over the events
 * its input delivers.
 */
module Server {
  import opened Common
  import opened Protocol
  import opened Requests
  import opened Responses

  /** The listen socket: only whether it is closed matters here. */
  class ServerSocket {
    var closed: bool

    constructor ()
      ensures !closed
    {
      closed := false;
    }

    method Close()
      modifies this
      ensures closed
    {
      closed := true;
    }
  }

  /** A connection socket: only whether it is closed matters here. */
  class Socket {
    var closed: bool

    constructor ()
      ensures !closed
    {
      closed := false;
    }

    method Close()
      modifies this
      ensures closed
    {
      closed := true;
    }
  }

  /** What one handler does with a request: answer with a response, answer null, or throw. */
  datatype Answer = Respond(response: Response) | Decline | Throw

  /** An httpIO request handler, given by what it answers. */
  class Handler {
    const answer: Request -> Answer

    constructor (answer: Request -> Answer)
      ensures this.answer == answer
    {
      this.answer := answer;
    }
  }

  /** The first response in handler order; handlers that answer null or throw are skipped. */
  function FirstAnswer(hs: seq<Handler>, request: Request): Option<Response> {
    if hs == [] then None
    else match hs[0].answer(request)
      case Respond(r) => Some(r)
      case _ => FirstAnswer(hs[1..], request)
  }

  /** Handler i answers with r and no earlier handler answers with a response. */
  predicate EarliestAt(hs: seq<Handler>, request: Request, r: Response, i: int) {
    0 <= i < |hs| && hs[i].answer(request) == Respond(r) &&
    forall j :: 0 <= j < i ==> !hs[j].answer(request).Respond?
  }

  /** FirstAnswer picks the response of the earliest handler that gives one, and only that. */
  lemma {:induction false} FirstAnswerIsEarliest(hs: seq<Handler>, request: Request, r: Response)
    ensures FirstAnswer(hs, request) == Some(r) <==> exists i :: EarliestAt(hs, request, r, i)
  {
    if hs == [] {
      return;
    }
    FirstAnswerIsEarliest(hs[1..], request, r);
    if hs[0].answer(request).Respond? {
      if hs[0].answer(request) == Respond(r) {
        assert EarliestAt(hs, request, r, 0);
      }
      if exists i :: EarliestAt(hs, request, r, i) {
        var i :| EarliestAt(hs, request, r, i);
        assert i == 0;
      }
    } else {
      if exists i :: EarliestAt(hs, request, r, i) {
        var i :| EarliestAt(hs, request, r, i);
        assert i > 0;
        assert EarliestAt(hs[1..], request, r, i - 1) by {
          forall j | 0 <= j < i - 1
            ensures !hs[1..][j].answer(request).Respond?
          {
            assert hs[1..][j] == hs[j + 1];
          }
        }
      }
      if exists i :: EarliestAt(hs[1..], request, r, i) {
        var i :| EarliestAt(hs[1..], request, r, i);
        assert EarliestAt(hs, request, r, i + 1) by {
          forall j | 0 <= j < i + 1
            ensures !hs[j].answer(request).Respond?
          {
            if j > 0 {
              assert hs[j] == hs[1..][j - 1];
            }
          }
        }
      }
    }
  }

  /** No response comes from handlers of which none answers with one. */
  lemma {:induction false} NoAnswer(hs: seq<Handler>, request: Request)
    ensures FirstAnswer(hs, request).None? <==> forall i :: 0 <= i < |hs| ==> !hs[i].answer(request).Respond?
  {
    if hs != [] {
      NoAnswer(hs[1..], request);
      if !hs[0].answer(request).Respond? {
        assert forall i :: 1 <= i < |hs| ==> hs[i] == hs[1..][i - 1];
      }
    }
  }

  /** The host a server binds to: an empty host name means every address. */
  function HostOf(host: string): (h: Option<string>)
    ensures h.None? <==> host == []
    ensures h.Some? ==> h.value == host
  {
    if host == [] then None else Some(host)
  }

  class Server {
    var running: bool
    var stopping: bool
    var socket: ServerSocket?
    var connections: set<Worker>
    var countConnections: nat
    var countRequests: nat
    /** A duplicate-free list, in registration order. */
    var handlers: seq<Handler>
    /** The socket registry of the older copy. */
    var openConnections: set<Socket>
    const host: Option<string>
    const port: int

    /** Every registered worker belongs to this server, and no handler is listed twice. */
    predicate Valid()
      reads this
    {
      (forall w :: w in connections ==> w.parent == this) &&
      (forall i, j :: 0 <= i < j < |handlers| ==> handlers[i] != handlers[j])
    }

    constructor (host: string, port: int)
      ensures this.host == HostOf(host) && this.port == port
      ensures !running && !stopping && socket == null && connections == {} && openConnections == {}
      ensures countConnections == 0 && countRequests == 0 && handlers == [] && Valid()
    {
      this.host := HostOf(host);
      this.port := port;
      running := false;
      stopping := false;
      socket := null;
      connections := {};
      countConnections := 0;
      countRequests := 0;
      handlers := [];
      openConnections := {};
    }

    /** start: nothing when running or when a listen socket exists; otherwise a new listen socket. */
    method Start()
      modifies this
      ensures old(running) || old(socket) != null ==> socket == old(socket)
      ensures !old(running) && old(socket) == null ==> socket != null && fresh(socket) && !socket.closed
      ensures running == old(running) && stopping == old(stopping) && connections == old(connections)
      ensures countConnections == old(countConnections) && countRequests == old(countRequests)
      ensures handlers == old(handlers) && openConnections == old(openConnections)
    {
      if running || socket != null {
        return;
      }
      socket := new ServerSocket();
    }

    /** isRunning: false once stopping or without a listen socket, otherwise the running flag. */
    function IsRunning(): (r: bool)
      reads this
      ensures r <==> !stopping && socket != null && running
      ensures stopping ==> !r
    {
      if stopping || socket == null then false else running
    }

    /**
     * The listener thread's entry: refuses to run twice, otherwise marks the
     * server running. EndListening follows either way.
     */
    method BeginListening() returns (proceed: bool)
      modifies this
      ensures proceed <==> !old(running)
      ensures running
      ensures stopping == old(stopping) && socket == old(socket) && connections == old(connections)
      ensures countConnections == old(countConnections) && countRequests == old(countRequests)
      ensures handlers == old(handlers) && openConnections == old(openConnections)
    {
      if running {
        return false;
      }
      running := true;
      return true;
    }

    /**
     * The listener thread's exit, its finally block: clears the running flag
     * and closes the server. It follows both outcomes of BeginListening: a
     * refused entry returns through the same finally block, so a second
     * listener closes the server.
     */
    method EndListening()
      requires Valid()
      modifies this, socket, set w | w in connections :: w.socket
      ensures !running && stopping && socket == null && !IsRunning()
      ensures old(socket) != null ==> old(socket).closed
      ensures old(connections) == {} ==> connections == {}
      ensures old(connections) != {} ==>
                exists w :: w in old(connections) && w.socket.closed && connections == old(connections) - {w} &&
                  forall v :: v in old(connections) && v.socket != w.socket ==> v.socket.closed == old(v.socket.closed)
      ensures countConnections == old(countConnections) && countRequests == old(countRequests)
      ensures handlers == old(handlers) && openConnections == old(openConnections)
      ensures Valid()
    {
      running := false;
      Close();
    }

    /**
     * Accept: refused while stopping (the accepted socket is closed);
     * otherwise the connection counter goes up by one and a worker numbered
     * by it is registered.
     */
    method Accept(accept: Socket) returns (worker: Worker?)
      requires Valid()
      modifies this, accept
      ensures worker == null <==> old(stopping)
      ensures worker == null ==> accept.closed && connections == old(connections) && countConnections == old(countConnections)
      ensures worker != null ==>
                fresh(worker) && worker.index == old(countConnections) + 1 && worker.parent == this &&
                worker.socket == accept && worker.countRequests == 0 && !accept.closed == !old(accept.closed) &&
                connections == old(connections) + {worker} && countConnections == old(countConnections) + 1
      ensures running == old(running) && stopping == old(stopping) && socket == old(socket)
      ensures countRequests == old(countRequests) && handlers == old(handlers) && openConnections == old(openConnections)
      ensures Valid()
    {
      if stopping {
        accept.Close();
        return null;
      }
      var count := IncrementConnections();
      worker := new Worker(count, this, accept);
      connections := connections + {worker};
    }

    method IncrementConnections() returns (count: nat)
      modifies this
      ensures countConnections == old(countConnections) + 1 && count == countConnections
      ensures running == old(running) && stopping == old(stopping) && socket == old(socket)
      ensures connections == old(connections) && countRequests == old(countRequests)
      ensures handlers == old(handlers) && openConnections == old(openConnections)
    {
      countConnections := countConnections + 1;
      count := countConnections;
    }

    method IncrementRequests() returns (count: nat)
      modifies this
      ensures countRequests == old(countRequests) + 1 && count == countRequests
      ensures running == old(running) && stopping == old(stopping) && socket == old(socket)
      ensures connections == old(connections) && countConnections == old(countConnections)
      ensures handlers == old(handlers) && openConnections == old(openConnections)
    {
      countRequests := countRequests + 1;
      count := countRequests;
    }

    /**
     * close: marks the server stopping, closes the listen socket, closes one
     * registered worker (the iteration over the set fails after the first
     * worker removes itself, and the failure is swallowed), and drops the
     * listen socket.
     */
    method Close()
      requires Valid()
      modifies this, socket, set w | w in connections :: w.socket
      ensures stopping && socket == null && !IsRunning()
      ensures old(socket) != null ==> old(socket).closed
      ensures old(connections) == {} ==> connections == {}
      ensures old(connections) != {} ==>
                exists w :: w in old(connections) && w.socket.closed && connections == old(connections) - {w} &&
                  forall v :: v in old(connections) && v.socket != w.socket ==> v.socket.closed == old(v.socket.closed)
      ensures running == old(running) && countConnections == old(countConnections) && countRequests == old(countRequests)
      ensures handlers == old(handlers) && openConnections == old(openConnections)
      ensures Valid()
    {
      stopping := true;
      if socket != null {
        socket.Close();
      }
      // the exception closeConnections may throw is swallowed here
      var _ := CloseConnections();
      socket := null;
    }

    /** unregisterWorker: drops the worker from the registry once its socket is closed. */
    method UnregisterWorker(worker: Worker?)
      modifies this
      ensures connections == if worker != null && worker.socket.closed then old(connections) - {worker} else old(connections)
      ensures running == old(running) && stopping == old(stopping) && socket == old(socket)
      ensures countConnections == old(countConnections) && countRequests == old(countRequests)
      ensures handlers == old(handlers) && openConnections == old(openConnections)
      ensures old(Valid()) ==> Valid()
    {
      if worker == null {
        return;
      }
      if worker.IsClosed() {
        connections := connections - {worker};
      }
    }

    /**
     * closeConnections: closes the first worker the iteration yields; that
     * worker removes itself from the set, and the iteration's next step
     * throws ConcurrentModificationException when another worker is left to
     * visit: `threw` reports that exception to the caller.
     */
    method CloseConnections() returns (threw: bool)
      requires Valid()
      modifies this, set w | w in connections :: w.socket
      ensures threw <==> |old(connections)| >= 2
      ensures old(connections) == {} ==> connections == {}
      ensures old(connections) != {} ==>
                exists w :: w in old(connections) && w.socket.closed && connections == old(connections) - {w} &&
                  forall v :: v in old(connections) && v.socket != w.socket ==> v.socket.closed == old(v.socket.closed)
      ensures running == old(running) && stopping == old(stopping) && socket == old(socket)
      ensures countConnections == old(countConnections) && countRequests == old(countRequests)
      ensures handlers == old(handlers) && openConnections == old(openConnections)
      ensures Valid()
    {
      threw := |connections| >= 2;
      if connections == {} {
        return;
      }
      var w :| w in connections;
      w.Close();
    }

    /**
     * serve: the response of the first handler, in registration order, that
     * gives one; handlers that answer null or throw are passed over; without
     * any, 404 with the default type and "Resource not found!".
     */
    method Serve(request: Request) returns (result: Response)
      ensures FirstAnswer(handlers, request).Some? ==> result == FirstAnswer(handlers, request).value
      ensures FirstAnswer(handlers, request).None? ==>
                fresh(result) &&
                result.State() == MessageState(request, Some(NOT_FOUND), Some(DEFAULT_MIME), Some("Resource not found!"))
    {
      var i := 0;
      while i < |handlers|
        invariant 0 <= i <= |handlers|
        invariant FirstAnswer(handlers, request) == FirstAnswer(handlers[i..], request)
      {
        assert handlers[i..][1..] == handlers[i + 1..];
        match handlers[i].answer(request)
        case Respond(r) =>
          return r;
        case _ =>
        i := i + 1;
      }
      result := new Response.WithMessage(request, Some(NOT_FOUND), Some(DEFAULT_MIME), Some("Resource not found!"));
    }

    /** registerHandler: adds the handler at the end unless it is already registered. */
    method RegisterHandler(handler: Handler)
      modifies this
      ensures handlers == if handler in old(handlers) then old(handlers) else old(handlers) + [handler]
      ensures handler in handlers
      ensures running == old(running) && stopping == old(stopping) && socket == old(socket)
      ensures connections == old(connections) && countConnections == old(countConnections)
      ensures countRequests == old(countRequests) && openConnections == old(openConnections)
      ensures old(Valid()) ==> Valid()
    {
      if handler !in handlers {
        handlers := handlers + [handler];
      }
    }

    /** registerConnection of the older copy: adds the socket. */
    method RegisterConnection(s: Socket)
      modifies this
      ensures openConnections == old(openConnections) + {s}
      ensures running == old(running) && stopping == old(stopping) && socket == old(socket)
      ensures connections == old(connections) && countConnections == old(countConnections)
      ensures countRequests == old(countRequests) && handlers == old(handlers)
    {
      openConnections := openConnections + {s};
    }

    /** unRegisterConnection of the older copy: removes that socket only. */
    method UnRegisterConnection(s: Socket)
      modifies this
      ensures openConnections == old(openConnections) - {s}
      ensures running == old(running) && stopping == old(stopping) && socket == old(socket)
      ensures connections == old(connections) && countConnections == old(countConnections)
      ensures countRequests == old(countRequests) && handlers == old(handlers)
    {
      openConnections := openConnections - {s};
    }

    /** closeAllConnections of the older copy: closes every registered socket and removes none. */
    method CloseAllConnections()
      modifies openConnections
      ensures openConnections == old(openConnections)
      ensures forall s :: s in openConnections ==> s.closed
    {
      var todo := openConnections;
      while todo != {}
        invariant todo <= openConnections
        invariant forall s :: s in openConnections && s !in todo ==> s.closed
        decreases todo
      {
        var s :| s in todo;
        s.Close();
        todo := todo - {s};
      }
    }
  }

  /**
   * What serve did with one parsed request: returned a response, given by
   * its state (None for the null an overriding serve may return), or threw.
   * The base serve catches every exception a handler throws and never
   * returns null, so it always gives Returned(Some(_)); Raised(_) and
   * Returned(None) come only from a subclass that overrides serve.
   */
  datatype Dispatch = Returned(state: Option<ResponseState>) | Raised(failure: Failure)

  /** A returned response can be built: its realm, if any, is one httpBasicAuth accepts. */
  predicate Buildable(d: Dispatch) {
    d.Returned? && d.state.Some? ==> d.state.value.realm != Some([])
  }

  /** The state of a response built for a failure after a request was parsed: 500 with an empty body. */
  function InternalError(request: Request): ResponseState {
    MessageState(request, Some(INTERNAL_ERROR), Some(DEFAULT_MIME), Some(""))
  }

  /** How one turn of the worker loop ends: it answers and goes on, or it stops, perhaps still owing an answer. */
  datatype Turn = Next(answer: ResponseState) | Stop(leftover: Option<ResponseState>, counted: nat)

  /**
   * One turn of httpServerWorker.run: a parse failure leaves no request and
   * nothing to answer; a timeout from serve drops the request; an
   * httpResponseException from serve is answered with its status and
   * message; any other failure, or a null result, with a 500; a response is
   * counted, and ends the loop if it is already chunked.
   */
  function TurnOf(parsed: Outcome<Request>, d: Dispatch): (t: Turn)
    ensures t.Next? ==> d == Returned(Some(t.answer)) && !t.answer.chunked
    ensures t.Stop? ==> t.counted <= 1 && (t.counted == 1 ==> t.leftover.Some? && d == Returned(Some(t.leftover.value)))
  {
    match parsed
    case Threw(_) => Stop(None, 0)
    case Done(request) =>
      match d
      case Raised(f) =>
        if f == SocketTimeout then Stop(None, 0)
        else if f.Rejected? then
          Stop(Some(MessageState(request, Some(f.error.status), Some(DEFAULT_MIME), Some(f.error.message))), 0)
        else Stop(Some(InternalError(request)), 0)
      case Returned(None) => Stop(Some(InternalError(request)), 0)
      case Returned(Some(st)) =>
        if st.chunked then Stop(Some(st), 1) else Next(st)
  }

  /**
   * httpServerWorker.run as a function of the events the connection
   * delivers and of what serve does with each request parsed, one per turn
   * the loop makes before it finds the socket closed: the responses
   * answered, in order, and how many requests are counted.
   */
  function RunSpec(evs: seq<LineEvent>, vs: seq<Dispatch>): (seq<ResponseState>, nat)
    decreases |vs|, 1
  {
    if vs == [] then ([], 0) else RunFrom(evs, vs)
  }

  /** A run that has a turn to make: the first turn, then, if it goes on, the run on what is left. */
  function RunFrom(evs: seq<LineEvent>, vs: seq<Dispatch>): (seq<ResponseState>, nat)
    requires vs != []
    decreases |vs|, 0
  {
    var t := TurnOf(ParseSpec(evs).0, vs[0]);
    if t.Stop? then (Yield(t.leftover), t.counted)
    else
      var rest := RunSpec(evs[ParseSpec(evs).1..], vs[1..]);
      ([t.answer] + rest.0, 1 + rest.1)
  }

  /** `sent` is what send writes for each of the states, in order. */
  predicate SentAs(sent: seq<Wire>, states: seq<ResponseState>, date: string, version: string) {
    |sent| == |states| && forall k :: 0 <= k < |sent| ==> sent[k] == WireOf(states[k], date, version)
  }

  lemma SentAsConcat(a: seq<Wire>, b: seq<Wire>, sa: seq<ResponseState>, sb: seq<ResponseState>, date: string, version: string)
    requires SentAs(a, sa, date, version) && SentAs(b, sb, date, version)
    ensures SentAs(a + b, sa + sb, date, version)
  {
    assert forall k :: |a| <= k < |a + b| ==> (a + b)[k] == b[k - |a|] && (sa + sb)[k] == sb[k - |a|];
  }

  /**
   * The books of a run under way: what has been answered and counted so
   * far, with what the run from here on yields, make up the whole run.
   */
  predicate Accounts(total: (seq<ResponseState>, nat), answered: seq<ResponseState>, counted: nat,
                     evs: seq<LineEvent>, vs: seq<Dispatch>)
  {
    total == (answered + RunSpec(evs, vs).0, counted + RunSpec(evs, vs).1)
  }

  /** A turn at index i that answers and goes on moves its answer into the books. */
  lemma AccountsNext(total: (seq<ResponseState>, nat), answered: seq<ResponseState>, counted: nat,
                     evs: seq<LineEvent>, ds: seq<Dispatch>, i: nat, after: seq<LineEvent>)
    requires i < |ds| && TurnOf(ParseSpec(evs).0, ds[i]).Next? && after == evs[ParseSpec(evs).1..]
    requires Accounts(total, answered, counted, evs, ds[i..])
    ensures Accounts(total, answered + [TurnOf(ParseSpec(evs).0, ds[i]).answer], counted + 1, after, ds[i + 1..])
  {
    assert ds[i..][0] == ds[i] && ds[i..][1..] == ds[i + 1..];
    RunNext(evs, ds[i..], after);
    var rest := RunSpec(after, ds[i + 1..]);
    assert answered + ([TurnOf(ParseSpec(evs).0, ds[i]).answer] + rest.0) ==
           answered + [TurnOf(ParseSpec(evs).0, ds[i]).answer] + rest.0;
  }

  /** A turn at index i that stops leaves its leftover answer, if any, as all that is still owed. */
  lemma AccountsStop(total: (seq<ResponseState>, nat), answered: seq<ResponseState>, counted: nat,
                     evs: seq<LineEvent>, ds: seq<Dispatch>, i: nat)
    requires i < |ds| && TurnOf(ParseSpec(evs).0, ds[i]).Stop?
    requires Accounts(total, answered, counted, evs, ds[i..])
    ensures var t := TurnOf(ParseSpec(evs).0, ds[i]);
            total == (answered + Yield(t.leftover), counted + t.counted)
  {
    assert ds[i..][0] == ds[i];
    RunStop(evs, ds[i..]);
  }

  /** RunSpec after a turn that answers and goes on. */
  lemma RunNext(evs: seq<LineEvent>, vs: seq<Dispatch>, after: seq<LineEvent>)
    requires vs != [] && TurnOf(ParseSpec(evs).0, vs[0]).Next?
    requires after == evs[ParseSpec(evs).1..]
    ensures RunSpec(evs, vs) ==
            ([TurnOf(ParseSpec(evs).0, vs[0]).answer] + RunSpec(after, vs[1..]).0, 1 + RunSpec(after, vs[1..]).1)
  {
  }

  /** RunSpec after a turn that stops. */
  lemma RunStop(evs: seq<LineEvent>, vs: seq<Dispatch>)
    requires vs != [] && TurnOf(ParseSpec(evs).0, vs[0]).Stop?
    ensures var t := TurnOf(ParseSpec(evs).0, vs[0]);
            RunSpec(evs, vs) == (Yield(t.leftover), t.counted)
  {
  }

  /**
   * A run answers at most once per turn; every request it counts is
   * answered, and at most one answer, the last, is not counted.
   */
  lemma {:induction false} RunBounds(evs: seq<LineEvent>, vs: seq<Dispatch>)
    ensures var r := RunSpec(evs, vs);
            r.1 <= |r.0| <= r.1 + 1 && |r.0| <= |vs|
    decreases |vs|
  {
    if vs != [] {
      var (parsed, used) := ParseSpec(evs);
      if TurnOf(parsed, vs[0]).Next? {
        RunBounds(evs[used..], vs[1..]);
      }
    }
  }

  /**
   * The answers of a run in order: each counted answer is the response serve
   * returned for that turn's request, and every answer but the last is one
   * of those and is not chunked, so a chunked response is always the last
   * thing a connection sends.
   */
  lemma {:induction false} RunAnswers(evs: seq<LineEvent>, vs: seq<Dispatch>)
    ensures var r := RunSpec(evs, vs);
            forall k :: 0 <= k < r.1 ==> k < |r.0| && k < |vs| && vs[k] == Returned(Some(r.0[k]))
    ensures var answers := RunSpec(evs, vs).0;
            forall k :: 0 <= k < |answers| - 1 ==> k < |vs| && vs[k] == Returned(Some(answers[k])) && !answers[k].chunked
    decreases |vs|
  {
    if vs != [] {
      var t := TurnOf(ParseSpec(evs).0, vs[0]);
      if t.Next? {
        var after := evs[ParseSpec(evs).1..];
        var rest := RunSpec(after, vs[1..]);
        RunAnswers(after, vs[1..]);
        RunBounds(after, vs[1..]);
        RunNext(evs, vs, after);
        forall k | 1 <= k < 1 + |rest.0|
          ensures ([t.answer] + rest.0)[k] == rest.0[k - 1] && vs[k] == vs[1..][k - 1]
        {
        }
      } else {
        RunStop(evs, vs);
      }
    }
  }

  /**
   * A run sends nothing and counts nothing exactly when the loop ends on its
   * first turn without a request to answer: the request could not be
   * parsed, or serve timed out on it (or the socket was found closed).
   */
  lemma SilentRun(evs: seq<LineEvent>, vs: seq<Dispatch>)
    ensures RunSpec(evs, vs).0 == [] <==>
              vs == [] || ParseSpec(evs).0.Threw? || vs[0] == Dispatch.Raised(SocketTimeout)
    ensures RunSpec(evs, vs).0 == [] ==> RunSpec(evs, vs).1 == 0
  {
    if vs != [] {
      var (parsed, used) := ParseSpec(evs);
      if TurnOf(parsed, vs[0]).Next? {
        RunNext(evs, vs, evs[ParseSpec(evs).1..]);
      }
    }
  }

  /**
   * At the end of the input stream the loop does not stop: readLine yields
   * null, the request is the empty one, and it is dispatched again on every
   * turn, so as long as serve returns unchunked responses every turn is
   * answered and counted.
   */
  lemma {:induction false} EndOfStreamKeepsServing(vs: seq<Dispatch>, sts: seq<ResponseState>)
    requires |vs| == |sts|
    requires forall k :: 0 <= k < |vs| ==> vs[k] == Returned(Some(sts[k])) && !sts[k].chunked
    ensures RunSpec([], vs) == (sts, |vs|)
    decreases |vs|
  {
    if vs != [] {
      ParseAtEnd();
      var e: seq<LineEvent> := [];
      assert e[0..] == [];
      EndOfStreamKeepsServing(vs[1..], sts[1..]);
      assert sts == [sts[0]] + sts[1..];
    }
  }

  /**
   * The answer of a request that serve failed on (other than by a timeout)
   * or answered with null: a response with the status of the
   * httpResponseException, or 500, whose body is the exception's message,
   * or nothing, as plain text with Content-Length framing; the worker then
   * closes the connection although the header says keep-alive.
   */
  lemma ErrorAnswer(request: Request, d: Dispatch, date: string, version: string)
    requires (d.Raised? && d.failure != SocketTimeout) || d == Returned(None)
    ensures var t := TurnOf(Done(request), d);
            t.Stop? && t.counted == 0 && t.leftover.Some?
    ensures var rejected := d.Raised? && d.failure.Rejected?;
            var status := if rejected then d.failure.error.status else INTERNAL_ERROR;
            var msg := if rejected then d.failure.error.message else "";
            var w := WireOf(TurnOf(Done(request), d).leftover.value, date, version);
            w.statusLine == "HTTP/1.1 " + StatusText(status) &&
            Values(w.fields, "Content-Length") == [Decimal(|Utf8(msg)|)] &&
            Values(w.fields, "Connection") == ["keep-alive"] &&
            Values(w.fields, "Content-Type") == [DEFAULT_MIME.text] &&
            (GetMethod(request) != Some(HEAD) ==> w.body == Utf8(msg))
  {
    var rejected := d.Raised? && d.failure.Rejected?;
    var msg := if rejected then d.failure.error.message else "";
    var st := TurnOf(Done(request), d).leftover.value;
    assert st.body == Some(BodyState(Utf8(msg), |Utf8(msg)|)) && !st.chunked;
    FixedLengthHead(st, date, version);
    ContentTypeHead(st, date, version);
    MessageWire(st, msg);
  }

  /** The 500 a failed or null dispatch is answered with announces an empty body and writes none. */
  lemma InternalErrorWire(request: Request, date: string, version: string)
    ensures var w := WireOf(InternalError(request), date, version);
            w.statusLine == "HTTP/1.1 " + StatusText(INTERNAL_ERROR) &&
            Values(w.fields, "Content-Length") == ["0"] && w.body == []
  {
    ErrorAnswer(request, Returned(None), date, version);
    assert TurnOf(Done(request), Returned(None)).leftover.value == InternalError(request);
    assert |Utf8("")| == 0;
    assert Decimal(0) == "0";
  }

  /** What is left to answer once the loop stops: nothing without a request, else the result or a 500. */
  function Owed(request: Option<Request>, result: Option<ResponseState>): Option<ResponseState> {
    if request.None? then None else Some(result.GetOr(InternalError(request.value)))
  }

  class Worker {
    const index: nat
    const parent: Server
    const socket: Socket
    var countRequests: nat

    constructor (index: nat, parent: Server, socket: Socket)
      ensures this.index == index && this.parent == parent && this.socket == socket && countRequests == 0
    {
      this.index := index;
      this.parent := parent;
      this.socket := socket;
      countRequests := 0;
    }

    /**
     * run: while the socket is open, parse a request and dispatch it; a
     * request served with a response is counted and, unless the response is
     * already chunked, answered at once and the loop goes on. The loop ends
     * on any failure, on a null result, or on a chunked response; then a
     * request still held is answered (by the result, or by a 500 with an
     * empty body), and the worker closes. A failure while parsing leaves no
     * request, so nothing is answered. The k-th element of `ds` is what serve
     * does with the k-th request parsed; the socket is found closed by the
     * loop once they are used up.
     */
    method Run(reader: LineReader, ds: seq<Dispatch>, date: string, version: string) returns (sent: seq<Wire>)
      requires forall k :: 0 <= k < |ds| ==> Buildable(ds[k])
      modifies this, parent, socket, reader
      ensures var spec := RunSpec(old(reader.pending), if old(socket.closed) then [] else ds);
              SentAs(sent, spec.0, date, version) && countRequests == old(countRequests) + spec.1 &&
              parent.countRequests == old(parent.countRequests) + spec.1
      ensures socket.closed && parent.connections == old(parent.connections) - {this}
      ensures parent.running == old(parent.running) && parent.stopping == old(parent.stopping) && parent.socket == old(parent.socket)
      ensures parent.countConnections == old(parent.countConnections) && parent.handlers == old(parent.handlers)
      ensures parent.openConnections == old(parent.openConnections)
    {
      ghost var evs := reader.pending;
      ghost var vs := if socket.closed then [] else ds;
      ghost var counted := 0;
      ghost var answered: seq<ResponseState> := [];
      ghost var total := RunSpec(evs, vs);
      var request: Option<Request> := None;
      var result: Response? := null;
      var i := 0;
      var stop := false;
      sent := [];
      assert vs[i..] == vs;
      assert answered + total.0 == total.0;
      while i < |ds| && !IsClosed()
        invariant 0 <= i <= |ds|
        invariant socket.closed == old(socket.closed)
        invariant !socket.closed ==> vs == ds
        invariant socket.closed ==> vs == [] && i == 0
        invariant parent.connections == old(parent.connections)
        invariant parent.running == old(parent.running) && parent.stopping == old(parent.stopping)
        invariant parent.socket == old(parent.socket) && parent.countConnections == old(parent.countConnections)
        invariant parent.handlers == old(parent.handlers) && parent.openConnections == old(parent.openConnections)
        invariant countRequests == old(countRequests) + counted
        invariant parent.countRequests == old(parent.countRequests) + counted
        invariant request.None? && result == null
        invariant SentAs(sent, answered, date, version)
        invariant Accounts(total, answered, counted, reader.pending, vs[i..])
        decreases |ds| - i
        invariant !stop
      {
        stop, request, result, sent, answered, counted := Step(reader, ds, i, date, version, total, answered, counted, sent);
        if stop {
          break;
        }
        i := i + 1;
      }
      if !stop {
        assert vs[i..] == [];
        assert RunSpec(reader.pending, []) == ([], 0);
      }
      ghost var owed := Yield(Owed(request, if result == null then None else Some(result.State())));
      assert total == (answered + owed, counted);
      var tail := Finish(request, result, date, version);
      SentAsConcat(sent, tail, answered, owed, date, version);
      sent := sent + tail;
    }

    /** The end of run: answer what is still owed, then close. */
    method Finish(request: Option<Request>, result: Response?, date: string, version: string) returns (tail: seq<Wire>)
      requires result != null ==> result.data != null ==> result.data.Valid()
      modifies socket, parent, result, if result == null then null else result.data
      ensures SentAs(tail, Yield(Owed(request, if result == null then None else Some(old(result.State())))), date, version)
      ensures socket.closed && parent.connections == old(parent.connections) - {this}
      ensures parent.countRequests == old(parent.countRequests)
      ensures parent.running == old(parent.running) && parent.stopping == old(parent.stopping) && parent.socket == old(parent.socket)
      ensures parent.countConnections == old(parent.countConnections) && parent.handlers == old(parent.handlers)
      ensures parent.openConnections == old(parent.openConnections)
    {
      tail := Answer(request, result, date, version);
      Close();
    }

    /**
     * The end of run: a request still held is answered by the result, or by
     * a 500 with an empty body when there is none; without a request nothing
     * is sent.
     */
    method Answer(request: Option<Request>, result: Response?, date: string, version: string) returns (tail: seq<Wire>)
      requires result != null ==> result.data != null ==> result.data.Valid()
      modifies result, if result == null then null else result.data
      ensures SentAs(tail, Yield(Owed(request, if result == null then None else Some(old(result.State())))), date, version)
    {
      if request.None? {
        return [];
      }
      var r := result;
      if r == null {
        r := new Response.WithMessage(request.value, Some(INTERNAL_ERROR), Some(DEFAULT_MIME), Some(""));
      }
      var wire := r.Send(date, version);
      tail := [wire];
    }

    /**
     * One turn of run's loop as the loop sees it: what has been answered and
     * counted so far, together with what the run still owes, stays equal to
     * the whole run; when the loop stops, the request and result given back
     * settle what is still owed.
     */
    method Step(reader: LineReader, ds: seq<Dispatch>, i: nat, date: string, version: string,
                ghost total: (seq<ResponseState>, nat), ghost answered: seq<ResponseState>, ghost counted: nat,
                sent: seq<Wire>)
      returns (stop: bool, request: Option<Request>, result: Response?, sent': seq<Wire>,
               ghost answered': seq<ResponseState>, ghost counted': nat)
      requires i < |ds| && Buildable(ds[i])
      requires Accounts(total, answered, counted, reader.pending, ds[i..])
      requires SentAs(sent, answered, date, version)
      modifies this, parent, reader
      ensures SentAs(sent', answered', date, version)
      ensures countRequests == old(countRequests) + (counted' - counted) && counted <= counted'
      ensures parent.countRequests == old(parent.countRequests) + (counted' - counted)
      ensures parent.connections == old(parent.connections)
      ensures parent.running == old(parent.running) && parent.stopping == old(parent.stopping) && parent.socket == old(parent.socket)
      ensures parent.countConnections == old(parent.countConnections) && parent.handlers == old(parent.handlers)
      ensures parent.openConnections == old(parent.openConnections)
      ensures !stop ==> request.None? && result == null && Accounts(total, answered', counted', reader.pending, ds[i + 1..])
      ensures stop ==> total == (answered' + Yield(Owed(request, if result == null then None else Some(result.State()))), counted')
      ensures stop && result != null ==>
                fresh(result) && (result.data != null ==> fresh(result.data) && result.data.Valid())
    {
      ghost var before := reader.pending;
      ghost var t := TurnOf(ParseSpec(before).0, ds[i]);
      var wire;
      stop, request, result, wire := Turn(reader, ds[i], date, version);
      if stop {
        AccountsStop(total, answered, counted, before, ds, i);
        answered' := answered;
        counted' := counted + t.counted;
        sent' := sent;
      } else {
        AccountsNext(total, answered, counted, before, ds, i, reader.pending);
        answered' := answered + [t.answer];
        counted' := counted + 1;
        sent' := sent + [wire];
      }
    }

    /**
     * One turn of run's loop: parse a request, take what serve does with
     * it, count it, and answer it unless the loop stops; when it stops, the
     * request still held and the result to answer it with are given back.
     */
    method Turn(reader: LineReader, d: Dispatch, date: string, version: string)
      returns (stop: bool, request: Option<Request>, result: Response?, wire: Wire)
      requires Buildable(d)
      modifies this, parent, reader
      ensures reader.pending == old(reader.pending)[ParseSpec(old(reader.pending)).1..]
      ensures var t := TurnOf(ParseSpec(old(reader.pending)).0, d);
              (stop <==> t.Stop?) &&
              (t.Next? ==> wire == WireOf(t.answer, date, version) && countRequests == old(countRequests) + 1 &&
                           parent.countRequests == old(parent.countRequests) + 1) &&
              (t.Stop? ==> countRequests == old(countRequests) + t.counted &&
                           parent.countRequests == old(parent.countRequests) + t.counted)
      ensures !stop ==> request.None? && result == null
      ensures stop ==> TurnOf(ParseSpec(old(reader.pending)).0, d).leftover ==
                       Owed(request, if result == null then None else Some(result.State()))
      ensures stop && result != null ==>
                fresh(result) && (result.data != null ==> fresh(result.data) && result.data.Valid())
      ensures parent.connections == old(parent.connections)
      ensures parent.running == old(parent.running) && parent.stopping == old(parent.stopping) && parent.socket == old(parent.socket)
      ensures parent.countConnections == old(parent.countConnections) && parent.handlers == old(parent.handlers)
      ensures parent.openConnections == old(parent.openConnections)
    {
      request := None;
      result := null;
      wire := Wire([], [], []);
      stop := true;
      var parsed := ParseRequest(reader);
      if parsed.Threw? {
        if parsed.failure.Rejected? {
          result := GetResponse(parsed.failure.error, request);
        }
        return;
      }
      request := Some(parsed.value);
      if d.Raised? {
        if d.failure == SocketTimeout {
          request := None;
        } else if d.failure.Rejected? {
          result := GetResponse(d.failure.error, request);
        }
        return;
      }
      if d.state.None? {
        return;
      }
      result := new Response.Of(d.state.value);
      var _ := IncrementRequests();
      if result.IsChunked() {
        return;
      }
      wire := result.Send(date, version);
      stop := false;
      request := None;
      result := null;
    }

    /** isClosed: the connection socket is closed; Close makes it so. */
    function IsClosed(): (c: bool)
      reads socket
      ensures c <==> socket.closed
    {
      socket.closed
    }

    /** incrementRequests: counts the request here and on the server. */
    method IncrementRequests() returns (count: nat)
      modifies this, parent
      ensures countRequests == old(countRequests) + 1 && count == countRequests
      ensures parent.countRequests == old(parent.countRequests) + 1
      ensures parent.running == old(parent.running) && parent.stopping == old(parent.stopping)
      ensures parent.socket == old(parent.socket) && parent.connections == old(parent.connections)
      ensures parent.countConnections == old(parent.countConnections) && parent.handlers == old(parent.handlers)
      ensures parent.openConnections == old(parent.openConnections)
    {
      var _ := parent.IncrementRequests();
      countRequests := countRequests + 1;
      count := countRequests;
    }

    /** close: closes the connection socket and drops this worker from the server's registry. */
    method Close()
      modifies socket, parent
      ensures socket.closed && IsClosed()
      ensures parent.connections == old(parent.connections) - {this}
      ensures parent.running == old(parent.running) && parent.stopping == old(parent.stopping)
      ensures parent.socket == old(parent.socket) && parent.countRequests == old(parent.countRequests)
      ensures parent.countConnections == old(parent.countConnections) && parent.handlers == old(parent.handlers)
      ensures parent.openConnections == old(parent.openConnections)
      ensures old(parent.Valid()) ==> parent.Valid()
    {
      socket.Close();
      parent.UnregisterWorker(this);
    }
  }
}
