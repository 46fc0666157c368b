/** `RequestFromReader`: the loop that reads from a stream into a growing
    buffer and offers the unconsumed bytes to the request parser until the
    request is complete. The stream is a script of chunks, so the model is
    deterministic; a chunk larger than the free buffer space is delivered
    over several reads, as an `io.Reader` may do. */
module Driver {
  import opened Tokens
  import opened Request

  /** One delivery from the stream: some bytes, or a read error. */
  datatype Chunk = Data(bytes: Bytes) | Failure

  /** The bytes the stream will deliver before it ends or fails. */
  function Stream(chunks: seq<Chunk>): Bytes {
    if chunks == [] then []
    else match chunks[0]
      case Failure => []
      case Data(b) => b + Stream(chunks[1..])
  }

  datatype ReadStatus = ReadOk | ReadEof | ReadFailed

  datatype ReadResult = ReadResult(got: Bytes, status: ReadStatus, rest: seq<Chunk>)

  /** `reader.Read(p)` where `space` is `len(p)`: at most `space` bytes of
      the next chunk; `(0, EOF)` once the stream is exhausted, and on every
      read after that. */
  function Read(chunks: seq<Chunk>, space: nat): (r: ReadResult)
    ensures |r.got| <= space
    ensures r.status == ReadEof <==> chunks == []
    ensures r.status == ReadFailed <==> chunks != [] && chunks[0].Failure?
    ensures r.status != ReadOk ==> r.got == []
    ensures r.status == ReadOk ==> Stream(chunks) == r.got + Stream(r.rest)
    ensures r.status == ReadOk && space > 0 && Stream(chunks) != [] && chunks[0] != Data([]) ==> |r.got| > 0
  {
    if chunks == [] then ReadResult([], ReadEof, [])
    else
      match chunks[0]
      case Failure => ReadResult([], ReadFailed, chunks[1..])
      case Data(b) =>
        if |b| <= space then ReadResult(b, ReadOk, chunks[1..])
        else
          var rest := [Data(b[space..])] + chunks[1..];
          assert rest[1..] == chunks[1..];
          assert b == b[..space] + b[space..];
          ReadResult(b[..space], ReadOk, rest)
  }

  /** `BufferSize`: the capacity the buffer starts with. */
  const BufferSize: nat := 8

  /** The capacities the buffer can have: 8, doubled any number of times. */
  predicate IsCapacity(c: nat)
    decreases c
  {
    c == BufferSize || (c > BufferSize && c % 2 == 0 && IsCapacity(c / 2))
  }

  /** Doubling a reachable capacity gives a reachable capacity. */
  lemma DoubleCapacity(c: nat)
    requires IsCapacity(c)
    ensures IsCapacity(c * 2)
  {
    assert (c * 2) / 2 == c;
  }

  /** Everything the loop carries from one iteration to the next:
      `buf[:readToIndex]` as `pending`, `len(buf)` as `capacity`, the
      request, and what the stream has yet to deliver. */
  datatype DriverState = DriverState(req: Request, pending: Bytes, capacity: nat, reader: seq<Chunk>)

  /** `readToIndex <= len(buf)`. */
  predicate Wf(st: DriverState) {
    |st.pending| <= st.capacity
  }

  /** The bytes not yet consumed by the parser, buffered or still in the
      stream. */
  function Unread(st: DriverState): Bytes {
    st.pending + Stream(st.reader)
  }

  predicate IsSuffix(a: Bytes, b: Bytes) {
    |a| <= |b| && b[|b| - |a|..] == a
  }

  /** The loop's state before its first iteration. */
  function Start(chunks: seq<Chunk>): (st: DriverState)
    ensures Wf(st) && IsCapacity(st.capacity)
    ensures st.pending == [] && Unread(st) == Stream(chunks)
  {
    DriverState(NewRequest, [], BufferSize, chunks)
  }

  datatype DriverError = ReadError | ParseError(cause: RequestError)

  datatype Progress = Continue(next: DriverState) | Abort(err: DriverError)

  /** The step function the loop drives, as a value. The loop is proved
      for every parser that consumes no more than it is offered;
      `RequestFromReader` instantiates it with `ParseStep`. */
  type Parser = (Request, Bytes) -> StepResult

  ghost predicate Consumes(parse: Parser) {
    forall r: Request, data: Bytes :: parse(r, data).n <= |data|
  }

  /** `ParseStep` is such a parser. */
  lemma ParseStepConsumes()
    ensures Consumes(ParseStep)
  {
  }

  /** The capacity after the grow check at the top of the loop. */
  function GrownCapacity(st: DriverState): (c: nat)
    requires Wf(st)
    ensures |st.pending| <= c
    ensures IsCapacity(st.capacity) ==> IsCapacity(c)
    ensures c == st.capacity || (|st.pending| == st.capacity && c == 2 * st.capacity)
    ensures |st.pending| == st.capacity ==> c == 2 * st.capacity
    ensures IsCapacity(st.capacity) ==> |st.pending| < c
  {
    if |st.pending| >= st.capacity then
      assert IsCapacity(st.capacity) ==> IsCapacity(st.capacity * 2) by {
        if IsCapacity(st.capacity) {
          DoubleCapacity(st.capacity);
        }
      }
      st.capacity * 2
    else st.capacity
  }

  /** The read of one iteration, into the free space after the grow check. */
  function ReadStep(st: DriverState): ReadResult
    requires Wf(st)
  {
    Read(st.reader, GrownCapacity(st) - |st.pending|)
  }

  /** The buffer contents after the read of one iteration. */
  function Buffered(st: DriverState): Bytes
    requires Wf(st)
  {
    st.pending + ReadStep(st).got
  }

  /** One iteration of the loop body: grow the buffer if it is full, read
      into the free space, offer the whole buffer to the parser, and shift
      the consumed prefix out. */
  function Step(parse: Parser, st: DriverState): (p: Progress)
    requires Consumes(parse) && Wf(st)
    ensures p.Continue? ==> Wf(p.next)
    ensures p.Continue? && IsCapacity(st.capacity) ==> IsCapacity(p.next.capacity)
    ensures p.Continue? ==>
      p.next.capacity == st.capacity || (|st.pending| == st.capacity && p.next.capacity == 2 * st.capacity)
    ensures p.Continue? && |st.pending| == st.capacity ==> p.next.capacity == 2 * st.capacity
    ensures p == Abort(ReadError) <==> st.reader != [] && st.reader[0].Failure?
    ensures !(st.reader != [] && st.reader[0].Failure?) ==>
      (p.Abort? <==> parse(st.req, Buffered(st)).err.Some?)
    ensures p.Abort? && p.err.ParseError? ==> Some(p.err.cause) == parse(st.req, Buffered(st)).err
    ensures p.Continue? ==> p.next.req == parse(st.req, Buffered(st)).req
  {
    var capacity := GrownCapacity(st);
    var rd := ReadStep(st);
    if rd.status == ReadFailed then Abort(ReadError)
    else
      var buffered := st.pending + rd.got;
      var ps := parse(st.req, buffered);
      if ps.err.Some? then Abort(ParseError(ps.err.value))
      else Continue(DriverState(ps.req, buffered[ps.n..], capacity, rd.rest))
  }

  /** The step that neither fails to read nor fails to parse. */
  lemma StepContinues(parse: Parser, st: DriverState)
    requires Consumes(parse) && Wf(st)
    requires !(st.reader != [] && st.reader[0].Failure?)
    requires parse(st.req, Buffered(st)).err.None?
    ensures var ps := parse(st.req, Buffered(st));
      Step(parse, st) == Continue(DriverState(ps.req, Buffered(st)[ps.n..], GrownCapacity(st), ReadStep(st).rest))
  {
  }

  /** No byte is lost or duplicated: after a step, the buffered bytes
      followed by what the stream still holds are what they were before,
      minus exactly the prefix the parser consumed. */
  lemma StepKeepsUnread(parse: Parser, st: DriverState)
    requires Consumes(parse) && Wf(st) && Step(parse, st).Continue?
    ensures IsSuffix(Unread(Step(parse, st).next), Unread(st))
    ensures |Unread(st)| - |Unread(Step(parse, st).next)| == parse(st.req, Buffered(st)).n
  {
    var rd := ReadStep(st);
    assert Stream(st.reader) == rd.got + Stream(rd.rest) by {
      if rd.status == ReadEof {
        assert st.reader == [] && rd.rest == [] && rd.got == [];
      }
    }
    StepContinues(parse, st);
    ShiftKeepsRest(st.pending, rd.got, Stream(rd.rest), parse(st.req, Buffered(st)).n);
  }

  /** Dropping `n` bytes from the front of a buffer drops exactly them from
      the buffer followed by the rest of the stream. */
  lemma ShiftKeepsRest(pending: Bytes, got: Bytes, rest: Bytes, n: nat)
    requires n <= |pending + got|
    ensures IsSuffix((pending + got)[n..] + rest, pending + (got + rest))
    ensures |pending + (got + rest)| - |(pending + got)[n..] + rest| == n
  {
    assert pending + (got + rest) == (pending + got) + rest;
    assert ((pending + got) + rest)[n..] == (pending + got)[n..] + rest;
  }

  datatype Outcome = Returned(req: Request) | Aborted(err: DriverError) | OutOfFuel

  /** The loop run for at most `fuel` iterations. `OutOfFuel` stands for a
      loop that is still going: the Go loop has no bound. */
  function Run(parse: Parser, st: DriverState, fuel: nat): (out: Outcome)
    requires Consumes(parse) && Wf(st)
    ensures out.Returned? ==> out.req.state == Done
    ensures st.req.state == Done ==> out == Returned(st.req)
    decreases fuel
  {
    if st.req.state == Done then Returned(st.req)
    else if fuel == 0 then OutOfFuel
    else
      match Step(parse, st)
      case Abort(e) => Aborted(e)
      case Continue(next) => Run(parse, next, fuel - 1)
  }

  /** A step that continues leaves the rest of the run to the next state. */
  lemma RunContinues(parse: Parser, st: DriverState, fuel: nat)
    requires Consumes(parse) && Wf(st)
    requires st.req.state != Done && fuel > 0 && Step(parse, st).Continue?
    ensures Run(parse, st, fuel) == Run(parse, Step(parse, st).next, fuel - 1)
  {
  }

  /** A step that aborts ends the run with its error. */
  lemma RunAborts(parse: Parser, st: DriverState, fuel: nat)
    requires Consumes(parse) && Wf(st)
    requires st.req.state != Done && fuel > 0 && Step(parse, st).Abort?
    ensures Run(parse, st, fuel) == Aborted(Step(parse, st).err)
  {
  }

  /** `RequestFromReader`: the loop over the request parser. */
  method RequestFromReader(chunks: seq<Chunk>, fuel: nat) returns (out: Outcome)
    ensures Consumes(ParseStep)
    ensures out == Run(ParseStep, Start(chunks), fuel)
    ensures out.Returned? ==> out.req.state == Done
  {
    ParseStepConsumes();
    out := Drive(ParseStep, chunks, fuel);
  }

  /** The loop over an array buffer that starts at 8 bytes, doubles when
      full, and has the consumed prefix copied out after every parse; it
      computes exactly what `Run` describes. */
  method Drive(parse: Parser, chunks: seq<Chunk>, fuel: nat) returns (out: Outcome)
    requires Consumes(parse)
    ensures out == Run(parse, Start(chunks), fuel)
  {
    var buf := new Byte[BufferSize];
    var readToIndex := 0;
    var req := NewRequest;
    var reader := chunks;
    var steps := fuel;
    assert buf[..readToIndex] == [];
    while req.state != Done
      invariant 0 <= readToIndex <= buf.Length
      invariant fresh(buf)
      invariant Wf(DriverState(req, buf[..readToIndex], buf.Length, reader))
      invariant Run(parse, DriverState(req, buf[..readToIndex], buf.Length, reader), steps) == Run(parse, Start(chunks), fuel)
      decreases steps
    {
      if steps == 0 {
        return OutOfFuel;
      }
      ghost var st := DriverState(req, buf[..readToIndex], buf.Length, reader);
      var err;
      buf, readToIndex, req, reader, err := Iteration(parse, buf, readToIndex, req, reader);
      if err.Some? {
        RunAborts(parse, st, steps);
        return Aborted(err.value);
      }
      RunContinues(parse, st, steps);
      steps := steps - 1;
    }
    out := Returned(req);
  }

  /** One pass of the loop body on the array buffer: the grow check and
      the read, then the parse of `buf[:readToIndex]` and the copy of the
      unconsumed bytes to the front. It does what `Step` describes. */
  method Iteration(parse: Parser, buf: array<Byte>, readToIndex: nat, req: Request, reader: seq<Chunk>)
    returns (buf': array<Byte>, readToIndex': nat, req': Request, reader': seq<Chunk>, err: Option<DriverError>)
    requires Consumes(parse)
    requires readToIndex <= buf.Length
    modifies buf
    ensures buf' == buf || fresh(buf')
    ensures readToIndex' <= buf'.Length
    ensures var st := DriverState(req, old(buf[..readToIndex]), buf.Length, reader);
      && (err.Some? ==> Step(parse, st) == Abort(err.value))
      && (err.None? ==> Step(parse, st) == Continue(DriverState(req', buf'[..readToIndex'], buf'.Length, reader')))
  {
    ghost var st := DriverState(req, buf[..readToIndex], buf.Length, reader);
    var rd;
    buf', readToIndex', rd := Fill(buf, readToIndex, req, reader);
    req', reader' := req, reader;
    if rd.status == ReadFailed {
      err := Some(ReadError);
      return;
    }
    var ps := parse(req, buf'[..readToIndex']);
    if ps.err.Some? {
      err := Some(ParseError(ps.err.value));
      return;
    }
    ghost var buffered := buf'[..readToIndex'];
    req' := ps.req;
    readToIndex' := ShiftOut(buf', readToIndex', ps.n);
    assert buf'[..readToIndex'] == buffered[ps.n..];
    reader' := rd.rest;
    err := None;
    StepContinues(parse, st);
  }

  /** The first half of an iteration: double the buffer if it is full,
      then read into `buf[readToIndex:]`. On a failed read the buffer is
      left as it was. */
  method Fill(buf: array<Byte>, readToIndex: nat, ghost req: Request, reader: seq<Chunk>)
    returns (buf': array<Byte>, readToIndex': nat, rd: ReadResult)
    requires readToIndex <= buf.Length
    modifies buf
    ensures buf' == buf || fresh(buf')
    ensures readToIndex' <= buf'.Length
    ensures var st := DriverState(req, old(buf[..readToIndex]), buf.Length, reader);
      && rd == ReadStep(st)
      && buf'.Length == GrownCapacity(st)
      && (rd.status != ReadFailed ==> buf'[..readToIndex'] == Buffered(st))
  {
    ghost var st := DriverState(req, buf[..readToIndex], buf.Length, reader);
    buf' := buf;
    if readToIndex >= buf.Length {
      buf' := Grow(buf, readToIndex);
    }
    assert buf'[..readToIndex] == st.pending && buf'.Length == GrownCapacity(st);
    rd := Read(reader, buf'.Length - readToIndex);
    readToIndex' := readToIndex;
    if rd.status != ReadFailed {
      readToIndex' := Append(buf', readToIndex, rd.got);
    }
  }

  /** A buffer twice as long holding the same first `len` bytes. */
  method Grow(buf: array<Byte>, len: nat) returns (grown: array<Byte>)
    requires len <= buf.Length
    ensures fresh(grown)
    ensures grown.Length == 2 * buf.Length
    ensures grown[..len] == buf[..len]
  {
    grown := new Byte[2 * buf.Length];
    forall i | 0 <= i < buf.Length {
      grown[i] := buf[i];
    }
    assert grown[..len] == buf[..len];
  }

  /** `copy(buf[len:], data)` when the data fits; the new fill level. */
  method Append(buf: array<Byte>, len: nat, data: Bytes) returns (filled: nat)
    requires len + |data| <= buf.Length
    modifies buf
    ensures filled == len + |data|
    ensures buf[..filled] == old(buf[..len]) + data
  {
    forall i | 0 <= i < |data| {
      buf[len + i] := data[i];
    }
    filled := len + |data|;
  }

  /** `copy(buf, buf[n:len])`: the unconsumed bytes moved to the front;
      the new fill level. */
  method ShiftOut(buf: array<Byte>, len: nat, n: nat) returns (filled: nat)
    requires n <= len <= buf.Length
    modifies buf
    ensures filled == len - n
    ensures buf[..filled] == old(buf[n..len])
  {
    forall i | 0 <= i < len - n {
      buf[i] := buf[n + i];
    }
    filled := len - n;
  }

  /** Once the stream is exhausted and the parser makes no progress on what
      is buffered, every further iteration reads `(0, EOF)` and changes
      nothing: the loop never returns. */
  lemma {:induction false} StallsForever(parse: Parser, st: DriverState, fuel: nat)
    requires Consumes(parse) && Wf(st)
    requires st.req.state != Done && st.reader == []
    requires parse(st.req, st.pending) == StepResult(st.req, 0, None)
    ensures Run(parse, st, fuel) == OutOfFuel
    decreases fuel
  {
    if fuel > 0 {
      assert Buffered(st) == st.pending;
      StepContinues(parse, st);
      var next := DriverState(st.req, st.pending, GrownCapacity(st), []);
      assert Step(parse, st) == Continue(next);
      StallsForever(parse, next, fuel - 1);
    }
  }

  /** A stream that ends before the request line is complete leaves the Go
      loop reading `(0, EOF)` forever. */
  lemma TruncatedRequestLineHangs(st: DriverState, fuel: nat)
    requires Wf(st)
    requires st.req.state == Initialized && st.reader == []
    requires ByteStrings.NoCrlf(st.pending)
    ensures Consumes(ParseStep)
    ensures Run(ParseStep, st, fuel) == OutOfFuel
  {
    ParseStepConsumes();
    InitializedWaits(st.req, st.pending);
    StallsForever(ParseStep, st, fuel);
  }

  /** Likewise a stream that ends before a declared body is complete: the
      loop keeps offering no bytes, and the body never reaches its
      length. */
  lemma TruncatedBodyHangs(st: DriverState, fuel: nat, length: int)
    requires Wf(st)
    requires st.req.state == ParsingBody && st.reader == [] && st.pending == []
    requires ContentLength(st.req) !in {"", "0"}
    requires Decimal.Atoi(ContentLength(st.req)) == Some(length)
    requires |st.req.body| != length
    ensures Consumes(ParseStep)
    ensures Run(ParseStep, st, fuel) == OutOfFuel
  {
    ParseStepConsumes();
    BodyAccumulates(st.req, [], length);
    assert st.req.body + [] == st.req.body;
    assert ParseStep(st.req, []).req == st.req;
    StallsForever(ParseStep, st, fuel);
  }

  /** A stream that ends in the middle of a header line hangs too: the
      partial line is no complete line, so `Headers.Parse` waits. */
  lemma TruncatedHeaderLineHangs(st: DriverState, fuel: nat)
    requires Wf(st)
    requires st.req.state == ParsingHeaders && st.reader == []
    requires |st.pending| > 0 && ByteStrings.NoCrlf(st.pending)
    ensures Consumes(ParseStep)
    ensures Run(ParseStep, st, fuel) == OutOfFuel
  {
    ParseStepConsumes();
    assert ParseStep(st.req, st.pending) == StepResult(st.req, 0, None) by {
      assert st.req.(headers := st.req.headers, state := ParsingHeaders) == st.req;
    }
    StallsForever(ParseStep, st, fuel);
  }

  /** The loop does end when the stream runs dry between header lines:
      with nothing buffered, a read of no bytes (at the end of the stream
      or not) hands `Headers.Parse` empty input, and its "missing end of
      headers" error ends the loop. */
  lemma HeadersEndedAborts(st: DriverState, fuel: nat)
    requires Wf(st)
    requires st.req.state == ParsingHeaders && st.pending == []
    requires st.reader == [] || st.reader[0] == Data([])
    requires fuel > 0
    ensures Consumes(ParseStep)
    ensures Run(ParseStep, st, fuel) == Aborted(ParseError(HeaderError(Headers.MissingEndOfHeaders)))
  {
    ParseStepConsumes();
    assert Buffered(st) == [];
    assert ParseStep(st.req, []) == StepResult(st.req, 0, Some(HeaderError(Headers.MissingEndOfHeaders)));
    RunAborts(ParseStep, st, fuel);
  }
}
