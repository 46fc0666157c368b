/** The incremental request parser: the request line (section 3 of
    RFC 9112), then header lines, then a body framed by Content-Length,
    driven as a four-state machine over whatever bytes are buffered. */
module Request {
  import opened Tokens
  import opened ByteStrings
  import opened Decimal
  import Headers

  datatype RequestLine = RequestLine(httpVersion: Bytes, requestTarget: Bytes, httpMethod: Bytes)

  /** The zero `RequestLine{}` the Go code returns alongside an error or
      when no line is complete yet. */
  const EmptyRequestLine := RequestLine([], [], [])

  datatype RequestState = Initialized | ParsingHeaders | ParsingBody | Done

  /** The state after `s` in the fixed order of the machine. */
  function Next(s: RequestState): RequestState {
    match s
    case Initialized => ParsingHeaders
    case ParsingHeaders => ParsingBody
    case ParsingBody => Done
    case Done => Done
  }

  datatype Request = Request(
    requestLine: RequestLine,
    state: RequestState,
    headers: Headers.Headers,
    body: Bytes)

  /** The request `RequestFromReader` starts from. */
  const NewRequest := Request(EmptyRequestLine, Initialized, map[], [])

  datatype RequestError =
    | HeaderError(cause: Headers.HeaderError)
    | WrongPartCount
    | EmptyMethod
    | MethodNotUppercase
    | InvalidHttpName
    | InvalidHttpVersion
    | InvalidContentLength

  /** A method is one or more upper-case ASCII letters. */
  predicate IsMethod(m: Bytes) {
    |m| > 0 && forall i :: 0 <= i < |m| ==> IsUpper(m[i])
  }

  /** `validateMethod`: the empty method and one with a byte outside
      `A`..`Z` are rejected, with different errors. */
  function ValidateMethod(m: Bytes): (err: Option<RequestError>)
    ensures err.None? <==> IsMethod(m)
    ensures |m| == 0 ==> err == Some(EmptyMethod)
    ensures |m| > 0 && !IsMethod(m) ==> err == Some(MethodNotUppercase)
  {
    if |m| == 0 then Some(EmptyMethod)
    else if forall i :: 0 <= i < |m| ==> IsUpper(m[i]) then None
    else Some(MethodNotUppercase)
  }

  /** `validateHttpVersion`: the field must start with `HTTP/` and what
      follows must be exactly `1.1`, so only `HTTP/1.1` itself passes. */
  function ValidateHttpVersion(httpVersion: Bytes): (err: Option<RequestError>)
    ensures err.None? <==> httpVersion == "HTTP/1.1"
    ensures !(HttpVersionPrefix <= httpVersion) ==> err == Some(InvalidHttpName)
    ensures HttpVersionPrefix <= httpVersion && httpVersion != "HTTP/1.1" ==> err == Some(InvalidHttpVersion)
  {
    if !(HttpVersionPrefix <= httpVersion) then Some(InvalidHttpName)
    else if httpVersion[|HttpVersionPrefix|..] != "1.1" then
      assert httpVersion != "HTTP/1.1";
      Some(InvalidHttpVersion)
    else
      assert httpVersion == HttpVersionPrefix + httpVersion[|HttpVersionPrefix|..];
      None
  }

  /** What `parseRequestLine` returns: the line, the bytes consumed, the
      error if any. */
  datatype LineResult = LineResult(line: RequestLine, n: nat, err: Option<RequestError>)

  /** `parseRequestLine`: wait for a CRLF, split the line on every single
      space, and accept exactly three fields with a valid method and
      version; the target is not checked at all. */
  function ParseRequestLine(data: Bytes): (r: LineResult)
    ensures r.n <= |data|
    ensures r.err.Some? ==> r.n == 0 && r.line == EmptyRequestLine
    ensures r.n == 0 ==> r.line == EmptyRequestLine
    ensures NoCrlf(data) <==> r == LineResult(EmptyRequestLine, 0, None)
    ensures r.err.None? && r.n > 0 ==>
      && r.line.httpVersion == "1.1"
      && IsMethod(r.line.httpMethod)
      && Sp !in r.line.requestTarget
      && CrlfAt(data, r.n - 2)
      && (forall j :: 0 <= j < r.n - 2 ==> !CrlfAt(data, j))
      && r.line.httpMethod + [Sp] + r.line.requestTarget + [Sp] + HttpVersionPrefix + r.line.httpVersion + Crlf
         == data[..r.n]
  {
    match IndexOfCrlf(data)
    case None => LineResult(EmptyRequestLine, 0, None)
    case Some(crlf) =>
      var parts := Split(data[..crlf], Sp);
      match FieldsError(parts)
      case Some(e) => LineResult(EmptyRequestLine, 0, Some(e))
      case None =>
        RequestLineJoin(data, crlf, parts);
        VersionSuffix(parts[2]);
        LineResult(RequestLine(parts[2][|HttpVersionPrefix|..], parts[1], parts[0]), crlf + |Crlf|, None)
  }

  /** The checks `parseRequestLine` makes on the fields of a line, in its
      order: the field count, then the method, then the version. */
  function FieldsError(parts: seq<Bytes>): (err: Option<RequestError>)
    ensures err.None? <==> |parts| == 3 && IsMethod(parts[0]) && parts[2] == "HTTP/1.1"
    ensures |parts| != 3 ==> err == Some(WrongPartCount)
    ensures |parts| == 3 && !IsMethod(parts[0]) ==> err == ValidateMethod(parts[0])
    ensures |parts| == 3 && IsMethod(parts[0]) ==> err == ValidateHttpVersion(parts[2])
  {
    if |parts| != 3 then Some(WrongPartCount)
    else if ValidateMethod(parts[0]).Some? then ValidateMethod(parts[0])
    else ValidateHttpVersion(parts[2])
  }

  /** The three fields of an accepted line glue back into the consumed
      bytes. */
  lemma RequestLineJoin(data: Bytes, crlf: nat, parts: seq<Bytes>)
    requires CrlfAt(data, crlf)
    requires |parts| == 3 && Join(parts, Sp) == data[..crlf]
    ensures parts[0] + [Sp] + parts[1] + [Sp] + parts[2] + Crlf == data[..crlf + |Crlf|]
  {
    JoinThree(parts);
    LineWithTerminator(data, crlf);
  }

  lemma JoinThree(parts: seq<Bytes>)
    requires |parts| == 3
    ensures Join(parts, Sp) == parts[0] + [Sp] + parts[1] + [Sp] + parts[2]
  {
    assert parts[1..][1..] == parts[2..];
    assert Join(parts[1..], Sp) == parts[1] + [Sp] + parts[2];
  }

  lemma LineWithTerminator(data: Bytes, crlf: nat)
    requires CrlfAt(data, crlf)
    ensures data[..crlf + |Crlf|] == data[..crlf] + Crlf
  {
    assert data[..crlf + 2] == data[..crlf] + [data[crlf], data[crlf + 1]];
  }

  lemma VersionSuffix(v: Bytes)
    requires v == "HTTP/1.1"
    ensures v[|HttpVersionPrefix|..] == "1.1" && HttpVersionPrefix + v[|HttpVersionPrefix|..] == v
  {
  }

  /** A request line given as its three space-free fields: a bad method is
      rejected first, then a bad version, and otherwise the fields come
      back as given, with the version after `HTTP/`, and exactly the line
      and its CRLF are consumed. The target may be empty. */
  lemma ParseRequestLineFields(m: Bytes, t: Bytes, v: Bytes, rest: Bytes)
    requires Sp !in m && Sp !in t && Sp !in v
    requires NoCrlf(m + [Sp] + t + [Sp] + v)
    ensures var r := ParseRequestLine(m + [Sp] + t + [Sp] + v + Crlf + rest);
      && (!IsMethod(m) ==>
            r == LineResult(EmptyRequestLine, 0, Some(if |m| == 0 then EmptyMethod else MethodNotUppercase)))
      && (IsMethod(m) && v != "HTTP/1.1" ==>
            r == LineResult(EmptyRequestLine, 0,
                            Some(if HttpVersionPrefix <= v then InvalidHttpVersion else InvalidHttpName)))
      && (IsMethod(m) && v == "HTTP/1.1" ==>
            r == LineResult(RequestLine("1.1", t, m), |m| + |t| + |v| + 4, None))
  {
    FieldsParse(m, t, v, rest);
    if v == "HTTP/1.1" {
      VersionSuffix(v);
    }
  }

  /** A line of three space-free fields is split back into exactly those
      fields, and `parseRequestLine` answers what `FieldsError` says of
      them. */
  lemma FieldsParse(m: Bytes, t: Bytes, v: Bytes, rest: Bytes)
    requires Sp !in m && Sp !in t && Sp !in v
    requires NoCrlf(m + [Sp] + t + [Sp] + v)
    ensures var err := FieldsError([m, t, v]);
      ParseRequestLine(m + [Sp] + t + [Sp] + v + Crlf + rest)
        == if err.Some? then LineResult(EmptyRequestLine, 0, err)
           else LineResult(RequestLine(v[|HttpVersionPrefix|..], t, m), |m| + |t| + |v| + 4, None)
  {
    var line := m + [Sp] + t + [Sp] + v;
    var data := line + Crlf + rest;
    assert IndexOfCrlf(data) == Some(|line|) && data[..|line|] == line by {
      LineEnd(line, rest);
    }
    assert Split(line, Sp) == [m, t, v] by {
      assert Join([m, t, v], Sp) == line by {
        assert Join([m, t, v][1..], Sp) == t + [Sp] + v;
      }
      SplitJoin([m, t, v], Sp);
    }
  }

  /** A line whose space count is not two is rejected before anything else
      is looked at: a doubled space, a trailing space, a missing field. */
  lemma ParseRequestLineWrongPartCount(line: Bytes, rest: Bytes)
    requires NoCrlf(line) && Count(line, Sp) != 2
    ensures ParseRequestLine(line + Crlf + rest) == LineResult(EmptyRequestLine, 0, Some(WrongPartCount))
  {
    LineEnd(line, rest);
    assert (line + Crlf + rest)[..|line|] == line;
    SplitCount(line, Sp);
  }

  /** The name the body state looks up; it is already lower case. */
  const ContentLengthName: Bytes := "content-length"

  /** The declared body length as text: the `content-length` field, or
      the empty string when there is none. */
  function ContentLength(r: Request): Bytes {
    if ContentLengthName in r.headers then r.headers[ContentLengthName] else []
  }

  /** `ContentLength` is the source's `Headers.Get("content-length")`:
      lower-casing the name changes nothing. */
  lemma ContentLengthIsGet(r: Request)
    ensures ContentLength(r) == Headers.Get(r.headers, ContentLengthName)
  {
    NameIsLower();
  }

  /** The looked-up name has no upper-case letter. */
  lemma NameIsLower()
    ensures ToLower(ContentLengthName) == ContentLengthName
  {
    var k := ContentLengthName;
    forall i | 0 <= i < |k| ensures !IsUpper(k[i]) {
      assert 'a' <= k[i] <= 'z' || k[i] == '-';
    }
    ToLowerOfLower(k);
  }

  /** What one `parse` call returns: the request afterwards, the bytes
      consumed, the error if any. */
  datatype StepResult = StepResult(req: Request, n: nat, err: Option<RequestError>)

  /** `Request.parse`: one step of the state machine over the buffered,
      not yet consumed bytes. */
  function ParseStep(r: Request, data: Bytes): (s: StepResult)
    ensures s.n <= |data|
    ensures s.err.Some? ==> s.n == 0
    ensures s.req.state == r.state || s.req.state == Next(r.state)
    ensures r.state != Initialized ==> s.req.requestLine == r.requestLine
    ensures r.state != ParsingHeaders ==> s.req.headers == r.headers
    ensures s.req.body == r.body || (r.state == ParsingBody && s.req.body == r.body + data)
    ensures r.state == Done ==> s == StepResult(r, 0, None)
  {
    match r.state
    case Initialized => LineStep(r, data)
    case ParsingHeaders => HeaderStep(r, data)
    case ParsingBody => BodyStep(r, data)
    case Done => StepResult(r, 0, None)
  }

  /** The `Initialized` case: the request line, once a whole one is
      buffered. */
  function LineStep(r: Request, data: Bytes): (s: StepResult)
    requires r.state == Initialized
    ensures s.n <= |data|
    ensures s.err.Some? ==> s.n == 0
    ensures s.req.state == Initialized || s.req.state == ParsingHeaders
    ensures s.req.headers == r.headers && s.req.body == r.body
  {
    var lr := ParseRequestLine(data);
    if lr.err.Some? then StepResult(r, 0, lr.err)
    else if lr.n <= 0 then StepResult(r, 0, None)
    else StepResult(r.(requestLine := lr.line, state := ParsingHeaders), lr.n, None)
  }

  /** The `ParsingHeaders` case: at most one header line. */
  function HeaderStep(r: Request, data: Bytes): (s: StepResult)
    requires r.state == ParsingHeaders
    ensures s.n <= |data|
    ensures s.err.Some? ==> s.n == 0
    ensures s.req.state == ParsingHeaders || s.req.state == ParsingBody
    ensures s.req.requestLine == r.requestLine && s.req.body == r.body
  {
    var hr := Headers.Parse(r.headers, data);
    if hr.err.Some? then StepResult(r, 0, Some(HeaderError(hr.err.value)))
    else
      StepResult(r.(headers := hr.headers, state := if hr.done then ParsingBody else ParsingHeaders), hr.n, None)
  }

  /** The `ParsingBody` case: every offered byte, against the declared
      length. */
  function BodyStep(r: Request, data: Bytes): (s: StepResult)
    requires r.state == ParsingBody
    ensures s.n <= |data|
    ensures s.err.Some? ==> s.n == 0
    ensures s.req.state == ParsingBody || s.req.state == Done
    ensures s.req.requestLine == r.requestLine && s.req.headers == r.headers
    ensures s.req.body == r.body || s.req.body == r.body + data
  {
    var contentLength := ContentLength(r);
    if contentLength == "" || contentLength == "0" then StepResult(r.(state := Done), |data|, None)
    else
      var body := r.body + data;
      match Atoi(contentLength)
      case None => StepResult(r.(body := body), 0, Some(InvalidContentLength))
      case Some(length) =>
        StepResult(r.(body := body, state := if |body| == length then Done else ParsingBody), |data|, None)
  }

  /** Without a complete line the start state waits: nothing consumed, no
      error, nothing changed. */
  lemma InitializedWaits(r: Request, data: Bytes)
    requires r.state == Initialized && NoCrlf(data)
    ensures ParseStep(r, data) == StepResult(r, 0, None)
  {
  }

  /** In the start state an error leaves the request as it was; a success
      moves to the header state, records version `1.1`, and the recorded
      line re-serialises to exactly the consumed bytes. */
  lemma InitializedRoundTrip(r: Request, data: Bytes)
    requires r.state == Initialized
    ensures var s := ParseStep(r, data);
      && (s.err.Some? ==> s.req == r)
      && (s.err.None? && s.n > 0 ==>
            && s.req.state == ParsingHeaders
            && s.req.requestLine.httpVersion == "1.1"
            && s.req.requestLine.httpMethod + [Sp] + s.req.requestLine.requestTarget + [Sp]
               + HttpVersionPrefix + s.req.requestLine.httpVersion + Crlf == data[..s.n])
  {
  }

  /** The header state defers to `Headers.Parse`: its error comes back with
      nothing consumed, the blank line moves to the body state (never
      straight to `Done`), and any other result keeps the state and
      consumes what `Headers.Parse` consumed. */
  lemma HeadersStep(r: Request, data: Bytes)
    requires r.state == ParsingHeaders
    ensures var s := ParseStep(r, data);
      var hr := Headers.Parse(r.headers, data);
      && (hr.err.Some? ==> s == StepResult(r, 0, Some(HeaderError(hr.err.value))))
      && (hr.err.None? && hr.done ==> s.req.state == ParsingBody && s.n == 2 && s.req.headers == r.headers)
      && (hr.err.None? && !hr.done ==> s.req.state == ParsingHeaders && s.n == hr.n && s.req.headers == hr.headers)
      && s.req.state != Done
  {
  }

  /** With no Content-Length, or `0`, the body state finishes at once,
      swallowing every offered byte and leaving the body empty-handed. */
  lemma BodySkipped(r: Request, data: Bytes)
    requires r.state == ParsingBody
    requires ContentLength(r) in {"", "0"}
    ensures ParseStep(r, data) == StepResult(r.(state := Done), |data|, None)
  {
  }

  /** With a numeric Content-Length the body state takes every offered
      byte into the body and is `Done` exactly when the body length equals
      the declared one. */
  lemma BodyAccumulates(r: Request, data: Bytes, length: int)
    requires r.state == ParsingBody
    requires ContentLength(r) !in {"", "0"}
    requires Atoi(ContentLength(r)) == Some(length)
    ensures var s := ParseStep(r, data);
      && s.err.None? && s.n == |data|
      && s.req.body == r.body + data
      && (s.req.state == Done <==> |r.body| + |data| == length)
  {
  }

  /** A Content-Length that is not a number is an error, nothing is
      consumed, but the offered bytes were already appended to the body. */
  lemma BodyBadLength(r: Request, data: Bytes)
    requires r.state == ParsingBody
    requires ContentLength(r) !in {"", "0"}
    requires Atoi(ContentLength(r)).None?
    ensures ParseStep(r, data) == StepResult(r.(body := r.body + data), 0, Some(InvalidContentLength))
  {
  }

  /** Only the exact texts `""` and `"0"` skip the body. `"00"` also
      declares zero bytes but goes through `Atoi`, so the offered bytes
      are appended and the state is `Done` only when there are none. */
  lemma BodyZeroWithLeadingZero(r: Request, data: Bytes)
    requires r.state == ParsingBody && ContentLength(r) == "00"
    ensures ParseStep(r, data)
         == StepResult(r.(body := r.body + data, state := if |r.body| + |data| == 0 then Done else ParsingBody),
                       |data|, None)
  {
    assert Atoi(ContentLength(r)) == Some(0) by {
      AtoiValue([], 1, 0);
      assert [] + Zeros(1) + Digits(0) == "00";
    }
    BodyAccumulates(r, data, 0);
  }

  /** Once the body is longer than declared the machine can never reach
      `Done`: there is no "body too long" error, the bytes keep being
      accepted. */
  lemma BodyOverrunNeverDone(r: Request, data: Bytes, length: int)
    requires r.state == ParsingBody
    requires ContentLength(r) !in {"", "0"}
    requires Atoi(ContentLength(r)) == Some(length)
    requires |r.body| > length
    ensures var s := ParseStep(r, data);
      s.err.None? && s.req.state == ParsingBody && |s.req.body| > length
  {
    BodyAccumulates(r, data, length);
  }

  /** A body delivered in two pieces: after the first the machine still
      waits, after the second it is `Done` with both pieces in order. */
  lemma BodyInTwoPieces(r: Request, d1: Bytes, d2: Bytes, length: int)
    requires r.state == ParsingBody
    requires ContentLength(r) !in {"", "0"}
    requires Atoi(ContentLength(r)) == Some(length)
    requires |r.body| + |d1| < length == |r.body| + |d1| + |d2|
    ensures var s1 := ParseStep(r, d1);
      var s2 := ParseStep(s1.req, d2);
      && s1.req.state == ParsingBody
      && s2.req.state == Done
      && s2.req.body == r.body + d1 + d2
      && s1.n + s2.n == |d1| + |d2|
  {
    BodyAccumulates(r, d1, length);
    var s1 := ParseStep(r, d1);
    BodyAccumulates(s1.req, d2, length);
  }

  /** The end of the headers only ever reaches the body state; a request
      without a body needs one more call, with any bytes at all, to reach
      `Done`, and that call consumes all of them. */
  lemma NoBodyNeedsAnotherCall(r: Request, data: Bytes, more: Bytes)
    requires r.state == ParsingHeaders && CrlfAt(data, 0)
    requires ContentLength(r) in {"", "0"}
    ensures var s1 := ParseStep(r, data);
      var s2 := ParseStep(s1.req, more);
      && s1 == StepResult(r.(state := ParsingBody), 2, None)
      && s2 == StepResult(r.(state := Done), |more|, None)
  {
    HeadersStep(r, data);
    BodySkipped(r.(state := ParsingBody), more);
  }
}
