/**
 * httpServerResponse: a status, a MIME type, the method of the request it
 * answers, a body stream, and the chunked flag; and send, which writes the
 * status line, the header fields of section 3.2 of RFC 7230, and the body.
 *
 * The output is given back as a Wire value: the status line, the header
 * fields in the order written (each goes out as "name: value" and CRLF,
 * followed by an empty line), and the body bytes.
 */
module Responses {
  import opened Common
  import opened Protocol
  import opened Requests
  import opened Auth

  /** The size of the copy buffer of send, 16 KiB. */
  const BufferSize: nat := 16 * 1024

  /**
   * A body stream: the bytes still to come, what available() reports, and
   * the lengths the stream chooses to deliver on its next reads (a short
   * read delivers fewer bytes than asked; once these run out every read
   * delivers what was asked, as far as bytes remain).
   */
  class Body {
    var rest: seq<Byte>
    var avail: nat
    var grants: seq<nat>
    /** The sizes asked by the reads so far. */
    var asked: seq<nat>
    var closed: bool

    predicate Valid()
      reads this
    {
      forall i :: 0 <= i < |grants| ==> grants[i] >= 1
    }

    /** A ByteArrayInputStream over the bytes: available() is their number and every read is full. */
    constructor FromBytes(bytes: seq<Byte>)
      ensures rest == bytes && avail == |bytes| && grants == [] && asked == [] && !closed && Valid()
    {
      rest := bytes;
      avail := |bytes|;
      grants := [];
      asked := [];
      closed := false;
    }

    /** Any other stream: available() may report less, or more, than the bytes that remain. */
    constructor Stream(bytes: seq<Byte>, available: nat, grants: seq<nat>)
      requires forall i :: 0 <= i < |grants| ==> grants[i] >= 1
      ensures rest == bytes && avail == available && this.grants == grants && asked == [] && !closed && Valid()
    {
      rest := bytes;
      avail := available;
      this.grants := grants;
      asked := [];
      closed := false;
    }

    function Available(): nat
      reads this
    {
      avail
    }

    /** read(buff, 0, size): -1 at the end of the stream, otherwise between 1 and size bytes. */
    method Read(size: nat) returns (n: int, bytes: seq<Byte>)
      requires Valid() && size >= 1
      modifies this
      ensures Valid() && closed == old(closed) && asked == old(asked) + [size]
      ensures old(rest) == [] ==> n == -1 && bytes == [] && rest == [] && grants == old(grants)
      ensures old(rest) != [] ==>
                1 <= n <= size && n == ReadLength(size, |old(rest)|, old(grants)) &&
                bytes == old(rest)[..n] && rest == old(rest)[n..] && grants == Drop1(old(grants))
    {
      asked := asked + [size];
      if rest == [] {
        return -1, [];
      }
      n := ReadLength(size, |rest|, grants);
      bytes := rest[..n];
      rest := rest[n..];
      grants := Drop1(grants);
      avail := if avail >= n then avail - n else 0;
    }

    method Close()
      modifies this
      ensures closed && rest == old(rest) && avail == old(avail) && grants == old(grants) && asked == old(asked)
    {
      closed := true;
    }
  }

  /** How many bytes a read delivers: no more than asked, than remain, or than the stream grants. */
  function ReadLength(size: nat, remaining: nat, grants: seq<nat>): nat {
    Min(Min(size, remaining), if grants == [] then size else grants[0])
  }

  function Drop1<T>(s: seq<T>): seq<T> {
    if s == [] then [] else s[1..]
  }

  /**
   * The fixed-length copy loop of send: reads at most min(pending, 16384)
   * bytes at a time, writes what each read delivers, and stops once
   * `length` bytes are copied or a read returns nothing. The bytes written
   * are the first `length` bytes of the stream, or all of it when it is
   * shorter, whatever lengths the reads deliver.
   */
  method CopyBody(src: Body, length: nat) returns (out: seq<Byte>)
    requires src.Valid()
    modifies src
    ensures src.Valid() && src.closed == old(src.closed)
    ensures out == old(src.rest)[..Min(length, |old(src.rest)|)]
    ensures old(src.rest) == out + src.rest
    ensures |old(src.asked)| <= |src.asked|
    ensures forall i :: |old(src.asked)| <= i < |src.asked| ==> 1 <= src.asked[i] <= BufferSize
  {
    var pending: nat := length;
    out := [];
    while pending > 0
      invariant src.Valid() && src.closed == old(src.closed)
      invariant |out| + pending == length
      invariant old(src.rest) == out + src.rest
      invariant |old(src.asked)| <= |src.asked|
      invariant forall i :: |old(src.asked)| <= i < |src.asked| ==> 1 <= src.asked[i] <= BufferSize
      decreases pending
    {
      var size := if pending > BufferSize then BufferSize else pending;
      var read, bytes := src.Read(size);
      if read <= 0 {
        assert out == old(src.rest) && |out| < length;
        break;
      }
      out := out + bytes;
      pending := pending - read;
    }
    assert |out| == Min(length, |old(src.rest)|);
    assert out == old(src.rest)[..|out|];
  }

  datatype Field = Field(name: string, value: string)

  /** What send writes: the status line, the header fields in order, and the body. */
  datatype Wire = Wire(statusLine: string, fields: seq<Field>, body: seq<Byte>)

  datatype BodyState = BodyState(bytes: seq<Byte>, available: nat)

  /** The fields of a response that send reads. */
  datatype ResponseState = ResponseState(
    status: Status,
    mime: Option<Mime>,
    requestMethod: Option<Method>,
    body: Option<BodyState>,
    chunked: bool,
    realm: Option<string>)

  datatype Framing = FixedLength(length: nat) | Chunked

  /** Content-Length framing needs a body and the chunked flag off; anything else is chunked. */
  function FramingOf(s: ResponseState): (f: Framing)
    ensures f.FixedLength? <==> !s.chunked && s.body.Some?
    ensures f.FixedLength? ==> f.length == s.body.value.available
  {
    if !s.chunked && s.body.Some? then FixedLength(s.body.value.available) else Chunked
  }

  function ContentType(s: ResponseState): Mime {
    s.mime.GetOr(DEFAULT_MIME)
  }

  function FramingFields(f: Framing): seq<Field> {
    match f
    case FixedLength(n) =>
      [Field("Accept-Ranges", "bytes"), Field("Content-Length", Decimal(n)), Field("Connection", "keep-alive")]
    case Chunked =>
      [Field("Transfer-Encoding", "chunked"), Field("Connection", "close")]
  }

  function AuthFields(realm: Option<string>): seq<Field> {
    if realm.Some? then [Field("WWW-Authenticate", "Basic realm=\"" + realm.value + "\"")] else []
  }

  /** The header fields send writes, in order (no custom header is ever stored, so Date is always written). */
  function HeadFields(s: ResponseState, date: string, version: string): seq<Field> {
    [Field("Date", date), Field("Server", "NanoHTTPlib/" + version)] + AuthFields(s.realm) +
    FramingFields(FramingOf(s)) + [Field("Content-Type", ContentType(s).text)]
  }

  /**
   * The body send writes: nothing for HEAD (the stream is dropped before the
   * copy) or without Content-Length framing (the byte count stays -1),
   * otherwise what the copy loop delivers.
   */
  function BodyOf(s: ResponseState): seq<Byte> {
    if s.requestMethod == Some(HEAD) then []
    else match FramingOf(s)
      case Chunked => []
      case FixedLength(n) => s.body.value.bytes[..Min(n, |s.body.value.bytes|)]
  }

  function WireOf(s: ResponseState, date: string, version: string): Wire {
    Wire("HTTP/1.1 " + StatusText(s.status), HeadFields(s, date, version), BodyOf(s))
  }

  /** The values of the fields with the given name, in order. */
  function Values(fs: seq<Field>, name: string): (vs: seq<string>)
    ensures |vs| <= |fs|
  {
    if fs == [] then [] else (if fs[0].name == name then [fs[0].value] else []) + Values(fs[1..], name)
  }

  lemma {:induction false} ValuesConcat(a: seq<Field>, b: seq<Field>, name: string)
    ensures Values(a + b, name) == Values(a, name) + Values(b, name)
  {
    if a == [] {
      assert a + b == b;
    } else {
      var head := if a[0].name == name then [a[0].value] else [];
      assert (a + b)[0] == a[0];
      assert (a + b)[1..] == a[1..] + b;
      assert Values(a + b, name) == head + Values(a[1..] + b, name);
      ValuesConcat(a[1..], b, name);
      assert Values(a, name) == head + Values(a[1..], name);
    }
  }

  /** The state of a response built from a message: its UTF-8 bytes as a fully available body. */
  function MessageState(request: Request, status: Option<Status>, mime: Option<Mime>, msg: Option<string>): ResponseState {
    ResponseState(status.GetOr(OK), mime, GetMethod(request),
                  if msg.Some? then Some(BodyState(Utf8(msg.value), |Utf8(msg.value)|)) else None,
                  false, None)
  }

  class Response {
    var status: Status
    var mime: Option<Mime>
    const requestMethod: Option<Method>
    var data: Body?
    var chunked: bool
    /** No member sets it, so it stays null unless set from outside. */
    var basicAuth: BasicAuth?

    function State(): ResponseState
      reads this, data
    {
      ResponseState(status, mime, requestMethod,
                    if data == null then None else Some(BodyState(data.rest, data.avail)),
                    chunked,
                    if basicAuth == null then None else Some(basicAuth.realm))
    }

    /** httpServerResponse(request, status, mime, data): a null status keeps OK, a null mime stays null. */
    constructor (request: Request, status: Option<Status>, mime: Option<Mime>, data: Body?)
      ensures this.status == status.GetOr(OK) && this.mime == mime && this.data == data
      ensures requestMethod == GetMethod(request) && !chunked && basicAuth == null
    {
      this.requestMethod := GetMethod(request);
      this.status := status.GetOr(OK);
      this.mime := mime;
      this.data := data;
      chunked := false;
      basicAuth := null;
    }

    /** httpServerResponse(request, status, mime, msg): the message's UTF-8 bytes as the body; no body for a null message. */
    constructor WithMessage(request: Request, status: Option<Status>, mime: Option<Mime>, msg: Option<string>)
      ensures State() == MessageState(request, status, mime, msg)
      ensures this.status == status.GetOr(OK) && this.mime == mime
      ensures requestMethod == GetMethod(request) && !chunked && basicAuth == null
      ensures msg.None? ==> data == null
      ensures msg.Some? ==> data != null && fresh(data) && data.rest == Utf8(msg.value) &&
                            data.avail == |Utf8(msg.value)| && data.grants == [] && !data.closed && data.Valid()
    {
      this.requestMethod := GetMethod(request);
      this.status := status.GetOr(OK);
      this.mime := mime;
      chunked := false;
      basicAuth := null;
      if msg.Some? {
        data := new Body.FromBytes(Utf8(msg.value));
      } else {
        data := null;
      }
    }

    /** httpServerResponse(request, msg): status OK, plain text. */
    constructor Text(request: Request, msg: Option<string>)
      ensures State() == MessageState(request, Some(OK), Some(PLAINTEXT), msg)
      ensures status == OK && mime == Some(PLAINTEXT)
      ensures requestMethod == GetMethod(request) && !chunked && basicAuth == null
      ensures msg.None? ==> data == null
      ensures msg.Some? ==> data != null && fresh(data) && data.rest == Utf8(msg.value) &&
                            data.avail == |Utf8(msg.value)| && data.grants == [] && !data.closed && data.Valid()
    {
      this.requestMethod := GetMethod(request);
      status := OK;
      mime := Some(PLAINTEXT);
      chunked := false;
      basicAuth := null;
      if msg.Some? {
        data := new Body.FromBytes(Utf8(msg.value));
      } else {
        data := null;
      }
    }

    /**
     * A response in a given state, as a handler hands it to the worker: its
     * body a stream over the given bytes, its authentication object one with
     * the given realm (httpBasicAuth refuses an empty realm).
     */
    constructor Of(st: ResponseState)
      requires st.realm != Some([])
      ensures State() == st
      ensures data != null ==> fresh(data) && data.Valid()
    {
      status := st.status;
      mime := st.mime;
      requestMethod := st.requestMethod;
      if st.body.Some? {
        data := new Body.Stream(st.body.value.bytes, st.body.value.available, []);
      } else {
        data := null;
      }
      chunked := st.chunked;
      if st.realm.Some? {
        basicAuth := new BasicAuth(st.realm.value);
      } else {
        basicAuth := null;
      }
    }

    /** isChunked: the chunked flag, under which send uses chunked framing. */
    function IsChunked(): (r: bool)
      reads this, data
      ensures r <==> State().chunked
      ensures r ==> FramingOf(State()) == Chunked
    {
      chunked
    }

    /**
     * send: writes the head, then the body when Content-Length framing
     * announced a positive length and the request was not HEAD. Without a
     * body stream, or with the chunked flag set, the chunked flag is set and
     * nothing follows the head. For HEAD the data field is dropped first, so
     * the copy fails at once and the stream is left open; otherwise the
     * stream is closed at the end.
     */
    method Send(date: string, version: string) returns (wire: Wire)
      requires data != null ==> data.Valid()
      modifies this, data
      ensures wire == WireOf(old(State()), date, version)
      ensures status == old(status) && mime == old(mime) && basicAuth == old(basicAuth)
      ensures chunked == (old(chunked) || old(data) == null)
      ensures data == if requestMethod == Some(HEAD) then null else old(data)
      ensures old(data) != null && requestMethod != Some(HEAD) ==> old(data).closed
      ensures old(data) != null && requestMethod == Some(HEAD) ==> unchanged(old(data))
    {
      var st := State();
      var tmpData := data;
      var tmpChunked := chunked;
      var realm := if basicAuth == null then None else Some(basicAuth.realm);
      var fields := [Field("Date", date), Field("Server", "NanoHTTPlib/" + version)];
      if realm.Some? {
        fields := fields + [Field("WWW-Authenticate", "Basic realm=\"" + realm.value + "\"")];
      }
      if requestMethod == Some(HEAD) {
        data := null;
      }
      var pending: int := -1;
      if !tmpChunked && tmpData != null {
        pending := tmpData.Available();
        fields := fields + [Field("Accept-Ranges", "bytes"), Field("Content-Length", Decimal(pending)),
                            Field("Connection", "keep-alive")];
      } else {
        chunked := true;
        fields := fields + [Field("Transfer-Encoding", "chunked"), Field("Connection", "close")];
      }
      fields := fields + [Field("Content-Type", mime.GetOr(DEFAULT_MIME).text)];
      var body: seq<Byte> := [];
      if pending > 0 && data != null {
        body := CopyBody(data, pending);
      }
      if data != null {
        data.Close();
      }
      wire := Wire("HTTP/1.1 " + StatusText(status), fields, body);
    }
  }

  /**
   * httpResponseException.getResponse: no response without a request,
   * otherwise the exception's status and message with the default type.
   */
  method GetResponse(e: ResponseException, request: Option<Request>) returns (r: Response?)
    ensures r == null <==> request.None?
    ensures r != null ==> fresh(r) && r.State() == MessageState(request.value, Some(e.status), Some(DEFAULT_MIME), Some(e.message))
    ensures r != null ==> r.data != null && fresh(r.data) && r.data.Valid()
  {
    if request.None? {
      return null;
    }
    r := new Response.WithMessage(request.value, Some(e.status), Some(DEFAULT_MIME), Some(e.message));
  }

  // ---------------------------------------------------------------- properties of the head and body

  lemma ValuesSingle(f: Field)
    ensures forall name :: Values([f], name) == if f.name == name then [f.value] else []
  {
    forall name
      ensures Values([f], name) == if f.name == name then [f.value] else []
    {
      assert [f][1..] == [];
    }
  }

  lemma ValuesPair(x: Field, y: Field)
    ensures forall name :: Values([x, y], name) == Values([x], name) + Values([y], name)
  {
    forall name
      ensures Values([x, y], name) == Values([x], name) + Values([y], name)
    {
      assert [x, y] == [x] + [y];
      ValuesConcat([x], [y], name);
    }
  }

  lemma ValuesTriple(x: Field, y: Field, z: Field)
    ensures forall name :: Values([x, y, z], name) == Values([x], name) + Values([y], name) + Values([z], name)
  {
    forall name
      ensures Values([x, y, z], name) == Values([x], name) + Values([y], name) + Values([z], name)
    {
      assert [x, y, z] == [x, y] + [z];
      ValuesConcat([x, y], [z], name);
      ValuesPair(x, y);
    }
  }

  /** The values a head holds under one field name, group by group. */
  lemma HeadValuesAt(s: ResponseState, date: string, version: string, name: string)
    ensures Values(HeadFields(s, date, version), name) ==
              (if name == "Date" then [date] else []) +
              (if name == "Server" then ["NanoHTTPlib/" + version] else []) +
              Values(AuthFields(s.realm), name) + Values(FramingFields(FramingOf(s)), name) +
              (if name == "Content-Type" then [ContentType(s).text] else [])
  {
    var a := [Field("Date", date), Field("Server", "NanoHTTPlib/" + version)];
    var b := AuthFields(s.realm);
    var c := FramingFields(FramingOf(s));
    var d := [Field("Content-Type", ContentType(s).text)];
    ValuesPair(a[0], a[1]);
    ValuesSingle(a[0]);
    ValuesSingle(a[1]);
    ValuesSingle(d[0]);
    ValuesConcat(a + b + c, d, name);
    ValuesConcat(a + b, c, name);
    ValuesConcat(a, b, name);
  }

  /** The values a framing group holds under one field name. */
  lemma FramingValuesAt(f: Framing, name: string)
    ensures f.FixedLength? ==>
              Values(FramingFields(f), name) ==
                (if name == "Accept-Ranges" then ["bytes"] else []) +
                (if name == "Content-Length" then [Decimal(f.length)] else []) +
                (if name == "Connection" then ["keep-alive"] else [])
    ensures f.Chunked? ==>
              Values(FramingFields(f), name) ==
                (if name == "Transfer-Encoding" then ["chunked"] else []) +
                (if name == "Connection" then ["close"] else [])
  {
    match f
    case FixedLength(n) =>
      var x, y, z := Field("Accept-Ranges", "bytes"), Field("Content-Length", Decimal(n)), Field("Connection", "keep-alive");
      ValuesTriple(x, y, z);
      ValuesSingle(x);
      ValuesSingle(y);
      ValuesSingle(z);
    case Chunked =>
      var x, y := Field("Transfer-Encoding", "chunked"), Field("Connection", "close");
      ValuesPair(x, y);
      ValuesSingle(x);
      ValuesSingle(y);
  }

  /** The values the authentication group holds under one field name. */
  lemma AuthValuesAt(realm: Option<string>, name: string)
    ensures Values(AuthFields(realm), name) ==
              if realm.Some? && name == "WWW-Authenticate" then ["Basic realm=\"" + realm.value + "\""] else []
  {
    if realm.Some? {
      ValuesSingle(Field("WWW-Authenticate", "Basic realm=\"" + realm.value + "\""));
    }
  }

  /** The value under one name outside the fixed fields and the authentication field. */
  lemma FramingNameAt(s: ResponseState, date: string, version: string, name: string)
    requires name != "Date" && name != "Server" && name != "WWW-Authenticate" && name != "Content-Type"
    ensures Values(HeadFields(s, date, version), name) == Values(FramingFields(FramingOf(s)), name)
  {
    HeadValuesAt(s, date, version, name);
    AuthValuesAt(s.realm, name);
  }

  /**
   * With a body stream and the chunked flag off, the head announces the
   * reported length once, with Accept-Ranges and keep-alive, and no
   * Transfer-Encoding.
   */
  lemma FixedLengthHead(s: ResponseState, date: string, version: string)
    requires !s.chunked && s.body.Some?
    ensures Values(HeadFields(s, date, version), "Content-Length") == [Decimal(s.body.value.available)]
    ensures Values(HeadFields(s, date, version), "Transfer-Encoding") == []
    ensures Values(HeadFields(s, date, version), "Connection") == ["keep-alive"]
    ensures Values(HeadFields(s, date, version), "Accept-Ranges") == ["bytes"]
  {
    var f := FramingOf(s);
    FramingNameAt(s, date, version, "Content-Length");
    FramingValuesAt(f, "Content-Length");
    FramingNameAt(s, date, version, "Transfer-Encoding");
    FramingValuesAt(f, "Transfer-Encoding");
    FramingNameAt(s, date, version, "Connection");
    FramingValuesAt(f, "Connection");
    FramingNameAt(s, date, version, "Accept-Ranges");
    FramingValuesAt(f, "Accept-Ranges");
  }

  /**
   * Without a body stream, or with the chunked flag set, the head announces
   * chunked transfer coding and close, and neither Content-Length nor
   * Accept-Ranges.
   */
  lemma ChunkedHead(s: ResponseState, date: string, version: string)
    requires s.chunked || s.body.None?
    ensures Values(HeadFields(s, date, version), "Content-Length") == []
    ensures Values(HeadFields(s, date, version), "Transfer-Encoding") == ["chunked"]
    ensures Values(HeadFields(s, date, version), "Connection") == ["close"]
    ensures Values(HeadFields(s, date, version), "Accept-Ranges") == []
  {
    var f := FramingOf(s);
    FramingNameAt(s, date, version, "Content-Length");
    FramingValuesAt(f, "Content-Length");
    FramingNameAt(s, date, version, "Transfer-Encoding");
    FramingValuesAt(f, "Transfer-Encoding");
    FramingNameAt(s, date, version, "Connection");
    FramingValuesAt(f, "Connection");
    FramingNameAt(s, date, version, "Accept-Ranges");
    FramingValuesAt(f, "Accept-Ranges");
  }

  /** Date and Server are always written, once each. */
  lemma DateAndServer(s: ResponseState, date: string, version: string)
    ensures Values(HeadFields(s, date, version), "Date") == [date]
    ensures Values(HeadFields(s, date, version), "Server") == ["NanoHTTPlib/" + version]
  {
    var f := FramingOf(s);
    HeadValuesAt(s, date, version, "Date");
    AuthValuesAt(s.realm, "Date");
    FramingValuesAt(f, "Date");
    HeadValuesAt(s, date, version, "Server");
    AuthValuesAt(s.realm, "Server");
    FramingValuesAt(f, "Server");
  }

  /** WWW-Authenticate is written, once, exactly when an authenticator is attached. */
  lemma AuthHead(s: ResponseState, date: string, version: string)
    ensures s.realm.Some? ==>
              Values(HeadFields(s, date, version), "WWW-Authenticate") == ["Basic realm=\"" + s.realm.value + "\""]
    ensures s.realm.None? ==> Values(HeadFields(s, date, version), "WWW-Authenticate") == []
  {
    HeadValuesAt(s, date, version, "WWW-Authenticate");
    AuthValuesAt(s.realm, "WWW-Authenticate");
    FramingValuesAt(FramingOf(s), "WWW-Authenticate");
  }

  /** Content-Type is written once: the chosen type, or the default one when none was chosen. */
  lemma ContentTypeHead(s: ResponseState, date: string, version: string)
    ensures Values(HeadFields(s, date, version), "Content-Type") == [s.mime.GetOr(DEFAULT_MIME).text]
    ensures s.mime.None? ==> Values(HeadFields(s, date, version), "Content-Type") == [DEFAULT_MIME.text]
  {
    HeadValuesAt(s, date, version, "Content-Type");
    AuthValuesAt(s.realm, "Content-Type");
    FramingValuesAt(FramingOf(s), "Content-Type");
  }

  /**
   * The body never exceeds the announced Content-Length, equals it when the
   * stream holds that many bytes, and the announced value reads back as the
   * reported length.
   */
  lemma BodyWithinLength(s: ResponseState)
    requires FramingOf(s).FixedLength?
    ensures |BodyOf(s)| <= s.body.value.available
    ensures ParseDecimal(Decimal(s.body.value.available)) == s.body.value.available
    ensures s.requestMethod != Some(HEAD) && s.body.value.available <= |s.body.value.bytes| ==>
              BodyOf(s) == s.body.value.bytes[..s.body.value.available]
  {
    DecimalRoundTrip(s.body.value.available);
  }

  /** A HEAD response and a chunked response write no body bytes, not even a terminating chunk. */
  lemma NoBodyWithoutLength(s: ResponseState)
    ensures s.requestMethod == Some(HEAD) ==> BodyOf(s) == []
    ensures FramingOf(s).Chunked? ==> BodyOf(s) == []
    ensures s.body.None? ==> FramingOf(s).Chunked?
  {
  }

  /**
   * A response built from a message announces its UTF-8 length and, unless
   * it answers HEAD, writes exactly the message's bytes; for ASCII text that
   * is one byte per character.
   */
  lemma MessageWire(s: ResponseState, msg: string)
    requires s.body == Some(BodyState(Utf8(msg), |Utf8(msg)|)) && !s.chunked
    ensures FramingOf(s) == FixedLength(|Utf8(msg)|)
    ensures s.requestMethod != Some(HEAD) ==> BodyOf(s) == Utf8(msg)
    ensures IsAscii(msg) ==> FramingOf(s) == FixedLength(|msg|)
  {
    if IsAscii(msg) {
      Utf8Ascii(msg);
    }
  }
}
