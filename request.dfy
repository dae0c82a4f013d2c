/**
 * The request parser (httpServerRequest): the request line of section 3.1.1
 * of RFC 7230, the split of the target at its first '?', the query pairs,
 * and the "Name: value" header lines of section 3.2 of RFC 7230.
 *
 * The connection's input is seen line by line, as BufferedReader.readLine
 * delivers it: a LineReader holds the events still to come. A read past the
 * last event returns null (the peer closed the stream).
 */
module Requests {
  import opened Common
  import opened Text
  import opened Percent
  import opened Protocol

  /**
   * A parsed request: the "method" and "uri" entries of the constructor's
   * `pre` store (absent when the stream was already at its end), the decoded
   * query and the lower-cased headers.
   */
  datatype Request = Request(
    methodToken: Option<string>,
    uri: Option<string>,
    query: map<string, string>,
    headers: map<string, string>)

  /** What the constructor leaves when the first read returns null. */
  const EmptyRequest := Request(None, None, map[], map[])

  /** getMethod: null when no method token was stored, otherwise the lookup of the token. */
  function GetMethod(r: Request): (m: Option<Method>)
    ensures r.methodToken.None? ==> m.None?
    ensures m.Some? <==> r.methodToken.Some? && (exists x :: MethodName(x) == r.methodToken.value)
    ensures m.Some? ==> MethodName(m.value) == r.methodToken.value
  {
    if r.methodToken.None? || r.methodToken.value == "" then None else LookupMethod(r.methodToken.value)
  }

  // ---------------------------------------------------------------- input

  datatype LineEvent =
    | Line(text: string) // a line, without its terminator
    | TimesOut           // the read blocks past the socket timeout
    | Breaks             // the read fails with an IOException

  datatype ReadResult = Got(text: string) | EndOfStream | Raised(failure: Failure)

  /** What readLine yields when the given events are still to come. */
  function NextRead(evs: seq<LineEvent>): ReadResult {
    if evs == [] then EndOfStream
    else match evs[0]
      case Line(t) => Got(t)
      case TimesOut => Raised(SocketTimeout)
      case Breaks => Raised(IoFailure)
  }

  class LineReader {
    var pending: seq<LineEvent>

    constructor (events: seq<LineEvent>)
      ensures pending == events
    {
      pending := events;
    }

    /** readLine: the next event; past the end, null for ever. */
    method ReadLine() returns (r: ReadResult)
      modifies this
      ensures r == NextRead(old(pending))
      ensures pending == if old(pending) == [] then [] else old(pending)[1..]
    {
      r := NextRead(pending);
      if pending != [] {
        pending := pending[1..];
      }
    }
  }

  // ---------------------------------------------------------------- query

  /** One '&'-separated piece: split at its first '=', both sides decoded; no '=' gives "". */
  function QueryPair(piece: string): Option<(string, string)> {
    var p := IndexOf(piece, '=');
    if p >= 0 then
      match (Decode(piece[..p]), Decode(piece[p + 1..]))
      case (Some(k), Some(v)) => Some((k, v))
      case _ => None
    else
      match Decode(piece)
      case Some(k) => Some((k, ""))
      case None => None
  }

  /**
   * The store decodeQuery leaves: each decoded pair put into the store in
   * order, later keys overwriting earlier ones, and the first piece with a
   * malformed escape ending it with None (the decoder throws).
   */
  function QueryOf(pieces: seq<string>, query: map<string, string>): Option<map<string, string>> {
    PutEach(pieces, query, QueryPair)
  }

  /**
   * The same store described at once: None exactly when some piece does not
   * decode, otherwise every decoded pair overlaid on the store in order.
   */
  lemma QueryOfAll(pieces: seq<string>, query: map<string, string>)
    ensures QueryOf(pieces, query) ==
            if AllSome(pieces, QueryPair) then Some(Overlay(query, Collect(pieces, QueryPair))) else None
  {
    PutEachOverlay(pieces, query, QueryPair);
  }

  const Ampersand: set<char> := {'&'}

  /**
   * decodeQuery: splits on '&' (empty pieces skipped), puts each decoded
   * pair into the store, and stops with None at the first malformed escape.
   * A null argument leaves the store as it was.
   */
  method DecodeQuery(parms: Option<string>, query: map<string, string>) returns (r: Option<map<string, string>>)
    ensures parms.None? ==> r == Some(query)
    ensures parms.Some? ==> r == QueryOf(Tokens(parms.value, Ampersand), query)
  {
    if parms.None? {
      return Some(query);
    }
    var pieces := Tokens(parms.value, Ampersand);
    var m := query;
    var i := 0;
    while i < |pieces|
      invariant 0 <= i <= |pieces|
      invariant QueryOf(pieces, query) == QueryOf(pieces[i..], m)
    {
      var kv := QueryPair(pieces[i]);
      if kv.None? {
        return None;
      }
      assert pieces[i..][1..] == pieces[i + 1..];
      m := m[kv.value.0 := kv.value.1];
      i := i + 1;
    }
    return Some(m);
  }

  /** Decoding the query fails exactly when one of its pieces holds a malformed escape. */
  lemma QueryFailsIff(pieces: seq<string>, query: map<string, string>)
    ensures QueryOf(pieces, query).None? <==> exists i :: 0 <= i < |pieces| && QueryPair(pieces[i]).None?
  {
    QueryOfAll(pieces, query);
  }

  /** The value of a key is that of the last piece naming it; a bare key maps to "". */
  lemma QueryLastWins(pieces: seq<string>, query: map<string, string>, i: nat)
    requires AllSome(pieces, QueryPair) && i < |pieces|
    requires forall j :: i < j < |pieces| ==> QueryPair(pieces[j]).value.0 != QueryPair(pieces[i]).value.0
    ensures QueryOf(pieces, query).Some?
    ensures var kv := QueryPair(pieces[i]).value;
            kv.0 in QueryOf(pieces, query).value && QueryOf(pieces, query).value[kv.0] == kv.1
    ensures IndexOf(pieces[i], '=') < 0 ==> QueryOf(pieces, query).value[QueryPair(pieces[i]).value.0] == ""
  {
    QueryOfAll(pieces, query);
    OverlayCollectLastWins(query, pieces, QueryPair, i);
  }

  /** A key no piece names keeps what the store held before. */
  lemma QueryUntouched(pieces: seq<string>, query: map<string, string>, k: string)
    requires AllSome(pieces, QueryPair)
    requires forall j :: 0 <= j < |pieces| ==> QueryPair(pieces[j]).value.0 != k
    ensures QueryOf(pieces, query).Some?
    ensures k in QueryOf(pieces, query).value <==> k in query
    ensures k in query ==> QueryOf(pieces, query).value[k] == query[k]
  {
    QueryOfAll(pieces, query);
    OverlayCollectUntouched(query, pieces, QueryPair, k);
  }

  // ---------------------------------------------------------------- target

  datatype Target = Target(path: string, query: map<string, string>)

  /** A target split at its '?': the query decoded from what follows, the path from what precedes; None when either throws. */
  function SplitTarget(path: string, params: string): Option<Target> {
    match (QueryOf(Tokens(params, Ampersand), map[]), Decode(path))
    case (Some(query), Some(p)) => Some(Target(p, query))
    case _ => None
  }

  /**
   * The request target split at its first '?': the decoded part before it is
   * the path and the part after it is the query. The query is decoded first,
   * as in the source, and either decoding may throw.
   */
  function TargetOf(uri: string): Option<Target> {
    var q := IndexOf(uri, '?');
    if q >= 0 then SplitTarget(uri[..q], uri[q + 1..])
    else
      match Decode(uri)
      case Some(path) => Some(Target(path, map[]))
      case None => None
  }

  /**
   * Without '?' the whole target is the path and the query is empty; with
   * one, the split is at the first '?', so the path never holds the query,
   * and a later '?' belongs to the query.
   */
  lemma TargetSplit(uri: string)
    ensures var q := IndexOf(uri, '?');
            (q >= 0 <==> '?' in uri) &&
            (q < 0 ==> (TargetOf(uri).Some? <==> Decode(uri).Some?) &&
                       (TargetOf(uri).Some? ==> TargetOf(uri).value == Target(Decode(uri).value, map[]))) &&
            (q >= 0 ==>
               '?' !in uri[..q] &&
               (TargetOf(uri).Some? <==> Decode(uri[..q]).Some? && QueryOf(Tokens(uri[q + 1..], Ampersand), map[]).Some?) &&
               (TargetOf(uri).Some? ==>
                  TargetOf(uri).value.path == Decode(uri[..q]).value &&
                  TargetOf(uri).value.query == QueryOf(Tokens(uri[q + 1..], Ampersand), map[]).value))
  {
    IndexOfFound(uri, '?');
    IndexOfFirst(uri, '?');
    var q := IndexOf(uri, '?');
    if q >= 0 {
      assert TargetOf(uri) == SplitTarget(uri[..q], uri[q + 1..]);
    } else {
      assert TargetOf(uri) == if Decode(uri).Some? then Some(Target(Decode(uri).value, map[])) else None;
    }
  }

  // ---------------------------------------------------------------- headers

  /** The name of a header line: the trimmed, lower-cased text before its first ':'. */
  function HeaderName(line: string): string
    requires ':' in line
  {
    IndexOfFound(line, ':');
    Lower(Trim(line[..IndexOf(line, ':')]))
  }

  /** The value of a header line: the trimmed text after its first ':'. */
  function HeaderValue(line: string): string
    requires ':' in line
  {
    IndexOfFound(line, ':');
    Trim(line[IndexOf(line, ':') + 1..])
  }

  /** A line with a ':' yields its (name, value) pair; any other line yields nothing. */
  function HeaderField(line: string): Option<(string, string)> {
    if IndexOf(line, ':') >= 0 then
      IndexOfFound(line, ':');
      Some((HeaderName(line), HeaderValue(line)))
    else None
  }

  /** The header store after the given lines, each line with a ':' put in order. */
  function HeadersOf(lines: seq<string>): map<string, string> {
    Overlay(map[], Collect(lines, HeaderField))
  }

  /** A line yields a field exactly when it holds a ':'; the field is its name and its value. */
  lemma HeaderFieldOf(line: string)
    ensures HeaderField(line).Some? <==> ':' in line
    ensures ':' in line ==> HeaderField(line).value == (HeaderName(line), HeaderValue(line))
  {
    IndexOfFound(line, ':');
  }

  /** The last line naming a header decides its value. */
  lemma HeadersLastWins(lines: seq<string>, i: nat)
    requires i < |lines| && HeaderField(lines[i]).Some?
    requires forall j :: i < j < |lines| && HeaderField(lines[j]).Some? ==>
               HeaderField(lines[j]).value.0 != HeaderField(lines[i]).value.0
    ensures var (name, value) := HeaderField(lines[i]).value;
            name in HeadersOf(lines) && HeadersOf(lines)[name] == value
  {
    OverlayCollectLastWins(map[], lines, HeaderField, i);
  }

  /** Every stored header comes from a line with that name. */
  lemma HeadersFromLines(lines: seq<string>, name: string)
    requires name in HeadersOf(lines)
    ensures exists i :: 0 <= i < |lines| && HeaderField(lines[i]).Some? && HeaderField(lines[i]).value.0 == name
  {
    OverlayCollectFrom(map[], lines, HeaderField, name);
  }

  /** The number of leading events that are non-blank lines: the header lines read. */
  function HeaderRun(evs: seq<LineEvent>): (k: nat)
    ensures k <= |evs|
    ensures forall i :: 0 <= i < k ==> evs[i].Line? && !IsBlank(evs[i].text)
    ensures k < |evs| ==> !evs[k].Line? || IsBlank(evs[k].text)
  {
    if evs != [] && evs[0].Line? && !IsBlank(evs[0].text) then 1 + HeaderRun(evs[1..]) else 0
  }

  /** The run is the only prefix of non-blank lines followed by something else. */
  lemma {:induction false} HeaderRunAt(evs: seq<LineEvent>, k: nat)
    requires k <= |evs|
    requires forall i :: 0 <= i < k ==> evs[i].Line? && !IsBlank(evs[i].text)
    requires k < |evs| ==> !evs[k].Line? || IsBlank(evs[k].text)
    ensures HeaderRun(evs) == k
    decreases k
  {
    if k > 0 {
      HeaderRunAt(evs[1..], k - 1);
    }
  }

  function Texts(evs: seq<LineEvent>): (ls: seq<string>)
    requires forall i :: 0 <= i < |evs| ==> evs[i].Line?
    ensures |ls| == |evs|
    ensures forall i :: 0 <= i < |evs| ==> ls[i] == evs[i].text
  {
    if evs == [] then [] else [evs[0].text] + Texts(evs[1..])
  }

  /**
   * The header loop as a function of the events still to come: the outcome
   * and how many events it consumes. Lines are read until a null or blank
   * line; a blank line is consumed, a null read consumes nothing, and a read
   * that throws ends the parse with that exception.
   */
  function HeaderPhase(evs: seq<LineEvent>): (Outcome<map<string, string>>, nat) {
    var k := HeaderRun(evs);
    var headers := HeadersOf(Texts(evs[..k]));
    if k == |evs| then (Done(headers), k)
    else match evs[k]
      case Line(_) => (Done(headers), k + 1)
      case TimesOut => (Threw(SocketTimeout), k + 1)
      case Breaks => (Threw(IoFailure), k + 1)
  }

  /**
   * The header loop step by step, from a store already holding headers: a
   * non-blank line is put (when it has a ':') and the loop goes on; a blank
   * line or the end of the stream ends it, and a read that throws ends the
   * parse with that exception. The outcome and how many events are consumed.
   */
  function HeaderLoop(evs: seq<LineEvent>, headers: map<string, string>, field: string -> Option<(string, string)>): (r: (Outcome<map<string, string>>, nat))
    ensures r.1 <= |evs|
    decreases |evs|
  {
    if evs == [] then (Done(headers), 0)
    else match evs[0]
      case TimesOut => (Threw(SocketTimeout), 1)
      case Breaks => (Threw(IoFailure), 1)
      case Line(text) =>
        if IsBlank(text) then (Done(headers), 1)
        else
          var next := HeaderLoop(evs[1..], Put(headers, field(text)), field);
          (next.0, 1 + next.1)
  }

  /** From a store that starts with headers, the loop reads the run of header lines and puts their fields. */
  lemma {:induction false} HeaderLoopRun(evs: seq<LineEvent>, headers: map<string, string>, field: string -> Option<(string, string)>)
    ensures var k := HeaderRun(evs);
            var stored := PutAll(Texts(evs[..k]), headers, field);
            HeaderLoop(evs, headers, field) ==
              if k == |evs| then (Done(stored), k)
              else if evs[k].TimesOut? then (Threw(SocketTimeout), k + 1)
              else if evs[k].Breaks? then (Threw(IoFailure), k + 1)
              else (Done(stored), k + 1)
    decreases |evs|
  {
    if evs != [] && evs[0].Line? && !IsBlank(evs[0].text) {
      var rest := evs[1..];
      var k := HeaderRun(evs);
      assert k == 1 + HeaderRun(rest);
      HeaderLoopRun(rest, Put(headers, field(evs[0].text)), field);
      TextsRun(evs, k);
      assert k < |evs| ==> evs[k] == rest[k - 1];
    } else if evs != [] {
      assert evs[..0] == [];
    }
  }

  /** One header line read: the loop goes on from the next event with its field put. */
  lemma HeaderLoopStep(evs: seq<LineEvent>, n: nat, headers: map<string, string>, field: string -> Option<(string, string)>)
    requires n < |evs| && evs[n].Line? && !IsBlank(evs[n].text)
    ensures var next := HeaderLoop(evs[n + 1..], Put(headers, field(evs[n].text)), field);
            HeaderLoop(evs[n..], headers, field) == (next.0, 1 + next.1)
  {
    assert evs[n..][1..] == evs[n + 1..];
  }

  lemma TextsRun(evs: seq<LineEvent>, k: nat)
    requires 0 < k <= |evs| && forall i :: 0 <= i < k ==> evs[i].Line?
    ensures Texts(evs[..k]) == [evs[0].text] + Texts(evs[1..][..k - 1])
  {
    assert evs[..k][1..] == evs[1..][..k - 1];
  }

  /** The loop started from the empty store is the header phase. */
  lemma HeaderLoopPhase(evs: seq<LineEvent>)
    ensures HeaderLoop(evs, map[], HeaderField) == HeaderPhase(evs)
  {
    HeaderLoopRun(evs, map[], HeaderField);
    PutAllOverlay(Texts(evs[..HeaderRun(evs)]), map[], HeaderField);
  }

  /**
   * The header loop of the constructor: reads "Name: value" lines until a
   * null or whitespace-only line, skipping lines without ':'.
   */
  method ReadHeaders(reader: LineReader) returns (r: Outcome<map<string, string>>)
    modifies reader
    ensures r == HeaderLoop(old(reader.pending), map[], HeaderField).0
    ensures reader.pending == old(reader.pending)[HeaderLoop(old(reader.pending), map[], HeaderField).1..]
  {
    ghost var evs := reader.pending;
    ghost var n := 0;
    var headers := map[];
    var line := reader.ReadLine();
    var more := IsHeaderLine(line);
    while more
      invariant n <= |evs|
      invariant line == NextRead(evs[n..])
      invariant more <==> line.Got? && !IsBlank(line.text)
      invariant reader.pending == if n < |evs| then evs[n + 1..] else []
      invariant HeaderLoop(evs, map[], HeaderField) == (HeaderLoop(evs[n..], headers, HeaderField).0, n + HeaderLoop(evs[n..], headers, HeaderField).1)
      decreases |evs| - n
    {
      HeaderLoopStep(evs, n, headers, HeaderField);
      headers := PutHeader(headers, line.text);
      n := n + 1;
      line := reader.ReadLine();
      more := IsHeaderLine(line);
      assert n < |evs| ==> evs[n..][1..] == evs[n + 1..];
    }
    match line
    case Got(_) => r := Done(headers);
    case EndOfStream => r := Done(headers);
    case Raised(f) => r := Threw(f);
  }

  /** The body of the loop: a line with a ':' puts its trimmed, lower-cased name and its trimmed value. */
  method PutHeader(headers: map<string, string>, line: string) returns (stored: map<string, string>)
    ensures stored == Put(headers, HeaderField(line))
  {
    var p := IndexOf(line, ':');
    if p >= 0 {
      IndexOfFound(line, ':');
      var name, value := HeaderName(line), HeaderValue(line);
      assert HeaderField(line) == Some((name, value));
      stored := headers[name := value];
    } else {
      assert HeaderField(line) == None;
      stored := headers;
    }
  }

  /** The loop condition: a line was read and it does not trim to the empty string. */
  method IsHeaderLine(line: ReadResult) returns (b: bool)
    ensures b <==> line.Got? && !IsBlank(line.text)
  {
    b := line.Got? && Trim(line.text) != [];
    if line.Got? {
      TrimBlank(line.text);
    }
  }

  /** The lines the header loop stopped after are the run of header lines. */
  lemma HeaderLinesRead(evs: seq<LineEvent>, lines: seq<string>)
    requires |lines| <= |evs|
    requires forall i :: 0 <= i < |lines| ==> evs[i] == Line(lines[i]) && !IsBlank(lines[i])
    requires |lines| < |evs| ==> !evs[|lines|].Line? || IsBlank(evs[|lines|].text)
    ensures HeaderRun(evs) == |lines|
    ensures Texts(evs[..|lines|]) == lines
  {
    HeaderRunAt(evs, |lines|);
  }

  // ---------------------------------------------------------------- request

  /** What the request line yields: the method token, the target, and whether a version token follows. */
  datatype RequestLine = RequestLine(methodToken: string, target: Target, hasVersion: bool)

  /**
   * The request line: no token is a syntax error, one token a missing URI;
   * otherwise the first token is the method and the second the target.
   */
  function RequestLineOf(line: string): Outcome<RequestLine> {
    var toks := Tokens(line, Whitespace);
    if |toks| == 0 then Threw(Rejected(SYNTAX_ERROR))
    else if |toks| == 1 then Threw(Rejected(MISSING_URI))
    else match TargetOf(toks[1])
      case None => Threw(IllegalArgument)
      case Some(t) => Done(RequestLine(toks[0], t, |toks| > 2))
  }

  /** The request-line part of the constructor. */
  method ReadRequestLine(line: string) returns (r: Outcome<RequestLine>)
    ensures r == RequestLineOf(line)
  {
    var toks := Tokens(line, Whitespace);
    if |toks| == 0 {
      return Threw(Rejected(SYNTAX_ERROR));
    }
    if |toks| == 1 {
      return Threw(Rejected(MISSING_URI));
    }
    var target := ReadTarget(toks[1]);
    if target.None? {
      return Threw(IllegalArgument);
    }
    return Done(RequestLine(toks[0], target.value, |toks| > 2));
  }

  /** The target of the request line: the query decoded first, then the path; None when either throws. */
  method ReadTarget(uri: string) returns (t: Option<Target>)
    ensures t == TargetOf(uri)
  {
    var qmi := IndexOf(uri, '?');
    if qmi >= 0 {
      t := ReadSplitTarget(uri[..qmi], uri[qmi + 1..]);
    } else {
      var path := Decode(uri);
      t := if path.Some? then Some(Target(path.value, map[])) else None;
    }
  }

  /** A target with a '?': the query is decoded first, then the path before the '?'. */
  method ReadSplitTarget(path: string, params: string) returns (t: Option<Target>)
    ensures t == SplitTarget(path, params)
  {
    var query := DecodeQuery(Some(params), map[]);
    if query.None? {
      return None;
    }
    var decoded := Decode(path);
    t := if decoded.Some? then Some(Target(decoded.value, query.value)) else None;
  }

  /**
   * The constructor of httpServerRequest as a function of the events still to
   * come: the outcome and how many events it consumes.
   */
  function ParseSpec(evs: seq<LineEvent>): (r: (Outcome<Request>, nat))
    ensures r.1 <= |evs|
    ensures r.1 == 0 <==> evs == []
  {
    match NextRead(evs)
    case EndOfStream => (Done(EmptyRequest), 0)
    case Raised(f) => (Threw(f), 1)
    case Got(line) =>
      match RequestLineOf(line)
      case Threw(f) => (Threw(f), 1)
      case Done(rl) => ParseFrom(rl, evs[1..])
  }

  /**
   * The rest of the constructor once the request line rl is read: without a
   * version no further line is read; with one, the header loop runs on what
   * follows. The outcome and how many events it consumes, the request line
   * included.
   */
  function ParseFrom(rl: RequestLine, rest: seq<LineEvent>): (r: (Outcome<Request>, nat))
    ensures 1 <= r.1 <= 1 + |rest|
  {
    if !rl.hasVersion then (Done(Request(Some(rl.methodToken), Some(rl.target.path), rl.target.query, map[])), 1)
    else
      var (h, n) := HeaderLoop(rest, map[], HeaderField);
      match h
      case Threw(f) => (Threw(f), 1 + n)
      case Done(headers) => (Done(Request(Some(rl.methodToken), Some(rl.target.path), rl.target.query, headers)), 1 + n)
  }

  /**
   * httpServerRequest(InputStream): reads the request line, splits and
   * decodes the target, and reads header lines only when a third token (the
   * version) is present.
   */
  method ParseRequest(reader: LineReader) returns (r: Outcome<Request>)
    modifies reader
    ensures r == ParseSpec(old(reader.pending)).0
    ensures reader.pending == old(reader.pending)[ParseSpec(old(reader.pending)).1..]
  {
    var first := reader.ReadLine();
    match first
    case EndOfStream =>
      return Done(EmptyRequest);
    case Raised(f) =>
      return Threw(f);
    case Got(line) =>
      var rl := ReadRequestLine(line);
      if rl.Threw? {
        return Threw(rl.failure);
      }
      var headers: map<string, string> := map[];
      if rl.value.hasVersion {
        var h := ReadHeaders(reader);
        if h.Threw? {
          return Threw(h.failure);
        }
        headers := h.value;
      }
      return Done(Request(Some(rl.value.methodToken), Some(rl.value.target.path), rl.value.target.query, headers));
  }

  /** A stream already at its end yields the empty request, whose method is null. */
  lemma ParseAtEnd()
    ensures ParseSpec([]) == (Done(EmptyRequest), 0)
    ensures GetMethod(EmptyRequest).None?
  {
  }

  /**
   * The request line: no token is a syntax error and one token a missing
   * URI, both 400 Bad Request; a malformed escape in the target throws;
   * otherwise the first token is the method and the second the target.
   */
  lemma RequestLineCases(line: string)
    ensures var toks := Tokens(line, Whitespace);
            var r := RequestLineOf(line);
            (|toks| == 0 ==> r == Threw(Rejected(SYNTAX_ERROR)) && SYNTAX_ERROR.status == BAD_REQUEST) &&
            (|toks| == 1 ==> r == Threw(Rejected(MISSING_URI)) && MISSING_URI.status == BAD_REQUEST) &&
            (|toks| >= 2 ==> (r.Threw? <==> TargetOf(toks[1]).None?) &&
                             (r.Threw? ==> r.failure == IllegalArgument)) &&
            (r.Done? ==> |toks| >= 2 && r.value.methodToken == toks[0] &&
                         Some(r.value.target) == TargetOf(toks[1]) &&
                         (r.value.hasVersion <==> |toks| >= 3))
  {
  }

  /**
   * A failing request line ends the parse after one line; a request line
   * without a version consumes nothing more and leaves the headers empty;
   * with a version the header loop decides the rest.
   */
  lemma ParseAfterRequestLine(line: string, rest: seq<LineEvent>)
    ensures var (r, n) := ParseSpec([Line(line)] + rest);
            var rl := RequestLineOf(line);
            (rl.Threw? ==> r == Threw(rl.failure) && n == 1) &&
            (r.Done? ==> rl.Done? && r.value.methodToken == Some(rl.value.methodToken) &&
                         r.value.uri == Some(rl.value.target.path) && r.value.query == rl.value.target.query) &&
            (rl.Done? && !rl.value.hasVersion ==> r.Done? && r.value.headers == map[] && n == 1) &&
            (rl.Done? && rl.value.hasVersion ==>
               n == 1 + HeaderPhase(rest).1 &&
               (r.Done? <==> HeaderPhase(rest).0.Done?) &&
               (r.Done? ==> r.value.headers == HeaderPhase(rest).0.value) &&
               (r.Threw? ==> r.failure == HeaderPhase(rest).0.failure))
  {
    assert ([Line(line)] + rest)[1..] == rest;
    HeaderLoopPhase(rest);
  }
}
