/** Writing a response head: the status line for the three status codes
    the server uses, the header block (one `name: value` line per field,
    then the blank line, as section 2.1 of RFC 9112 lays a message out),
    and the three default headers. The `io.Writer` is a byte sink that
    accepts a scripted number of `Write` calls and fails every one after
    that. */
module Response {
  import opened Tokens
  import ByteStrings
  import Decimal
  import Headers

  /** `StatusCode`: an `int` in Go. */
  type StatusCode = int

  const StatusOk: StatusCode := 200
  const StatusBadRequest: StatusCode := 400
  const StatusInternalServerError: StatusCode := 500

  /** The reason phrase the server writes for a status code it knows. */
  function ReasonPhrase(code: StatusCode): Option<Bytes> {
    if code == StatusOk then Some("OK")
    else if code == StatusBadRequest then Some("Bad Request")
    else if code == StatusInternalServerError then Some("Internal Server Error")
    else None
  }

  /** The text `WriteStatusLine` writes: `HTTP/1.1`, the code and its
      reason phrase, then CRLF, for a known code; nothing at all for any
      other code. */
  function StatusLine(code: StatusCode): (line: Bytes)
    ensures ReasonPhrase(code).None? <==> line == []
  {
    match ReasonPhrase(code)
    case None => []
    case Some(reason) => "HTTP/1.1 " + Decimal.FormatInt(code) + " " + reason + Crlf
  }

  /** The three lines exactly as the server sends them, and the empty
      string for every other code. */
  lemma StatusLines(code: StatusCode)
    ensures code == StatusOk ==> StatusLine(code) == "HTTP/1.1 200 OK\r\n"
    ensures code == StatusBadRequest ==> StatusLine(code) == "HTTP/1.1 400 Bad Request\r\n"
    ensures code == StatusInternalServerError ==> StatusLine(code) == "HTTP/1.1 500 Internal Server Error\r\n"
    ensures code !in {StatusOk, StatusBadRequest, StatusInternalServerError} ==> StatusLine(code) == []
  {
    if code == StatusOk {
      OkLine();
    } else if code == StatusBadRequest {
      BadRequestLine();
    } else if code == StatusInternalServerError {
      InternalServerErrorLine();
    }
  }

  lemma OkLine()
    ensures StatusLine(StatusOk) == "HTTP/1.1 200 OK\r\n"
  {
    HundredsText(2);
    StatusLineOf(200, "200", "OK");
    OkText();
  }

  /** The pieces `StatusLine` joins, written out as one literal. */
  lemma OkText()
    ensures "HTTP/1.1 " + "200" + " " + "OK" + Crlf == "HTTP/1.1 200 OK\r\n"
  {
  }

  lemma BadRequestLine()
    ensures StatusLine(StatusBadRequest) == "HTTP/1.1 400 Bad Request\r\n"
  {
    HundredsText(4);
    StatusLineOf(400, "400", "Bad Request");
    BadRequestText();
  }

  lemma BadRequestText()
    ensures "HTTP/1.1 " + "400" + " " + "Bad Request" + Crlf == "HTTP/1.1 400 Bad Request\r\n"
  {
  }

  lemma InternalServerErrorLine()
    ensures StatusLine(StatusInternalServerError) == "HTTP/1.1 500 Internal Server Error\r\n"
  {
    HundredsText(5);
    StatusLineOf(500, "500", "Internal Server Error");
    InternalServerErrorText();
  }

  lemma InternalServerErrorText()
    ensures "HTTP/1.1 " + "500" + " " + "Internal Server Error" + Crlf == "HTTP/1.1 500 Internal Server Error\r\n"
  {
    InternalServerErrorPrefix();
  }

  lemma InternalServerErrorPrefix()
    ensures "HTTP/1.1 " + "500" + " " == "HTTP/1.1 500 "
  {
  }

  /** The decimal text of a whole number of hundreds below a thousand. */
  lemma HundredsText(h: nat)
    requires 1 <= h < 10
    ensures Decimal.FormatInt(h * 100) == [Decimal.DigitByte(h), '0', '0']
  {
    var m := h * 10;
    assert m / 10 == h && m % 10 == 0;
    assert (m * 10) / 10 == m && (m * 10) % 10 == 0;
    assert Decimal.Digits(m) == [Decimal.DigitByte(h), '0'];
    assert m * 10 == h * 100;
  }

  /** A known code's line, from its digits and its reason phrase. */
  lemma StatusLineOf(code: StatusCode, digits: Bytes, reason: Bytes)
    requires Decimal.FormatInt(code) == digits && ReasonPhrase(code) == Some(reason)
    ensures StatusLine(code) == "HTTP/1.1 " + digits + " " + reason + Crlf
  {
  }

  /** The part of an `io.Writer` the serialisers see: what it has received
      so far, and how many more `Write` calls it will accept (`None`: all
      of them). A refused write delivers nothing. */
  datatype Writer = Writer(written: Bytes, accepts: Option<nat>)

  /** What a write returns: the writer afterwards, and whether the call
      failed. */
  datatype WriteResult = WriteResult(w: Writer, failed: bool)

  /** `w.Write(p)`. */
  function Write(w: Writer, p: Bytes): (r: WriteResult)
    ensures r.failed <==> w.accepts == Some(0)
    ensures r.failed ==> r.w == w
    ensures !r.failed ==> r.w.written == w.written + p
    ensures !r.failed && w.accepts.Some? ==> r.w.accepts == Some(w.accepts.value - 1)
    ensures w.accepts.None? ==> r.w.accepts.None?
  {
    match w.accepts
    case None => WriteResult(Writer(w.written + p, None), false)
    case Some(k) =>
      if k == 0 then WriteResult(w, true) else WriteResult(Writer(w.written + p, Some(k - 1)), false)
  }

  /** Whether `w` accepts at least `calls` more writes. */
  predicate Accepts(w: Writer, calls: nat) {
    w.accepts.None? || w.accepts.value >= calls
  }

  /** `WriteStatusLine`: a single write of the status line; the error is
      the writer's, and an unknown code writes the empty string without an
      error of its own. */
  function WriteStatusLine(w: Writer, code: StatusCode): (r: WriteResult)
    ensures r.failed <==> !Accepts(w, 1)
    ensures !r.failed ==> r.w.written == w.written + StatusLine(code)
    ensures r.failed ==> r.w == w
  {
    Write(w, StatusLine(code))
  }

  /** One header line: name, `": "`, value, CRLF. */
  function HeaderLine(name: Bytes, value: Bytes): (line: Bytes)
    ensures |line| == |name| + |value| + 4
  {
    name + ": " + value + Crlf
  }

  /** `order` lists every key of `h` exactly once: one possible map
      iteration order. */
  predicate IsEnumeration(order: seq<Bytes>, h: Headers.Headers) {
    && (forall i :: 0 <= i < |order| ==> order[i] in h)
    && (forall k :: k in h ==> k in order)
    && (forall i, j :: 0 <= i < j < |order| ==> order[i] != order[j])
  }

  /** The header lines for the keys of `order`, in that order. */
  function Lines(h: Headers.Headers, order: seq<Bytes>): Bytes
    requires forall i :: 0 <= i < |order| ==> order[i] in h
  {
    if order == [] then [] else HeaderLine(order[0], h[order[0]]) + Lines(h, order[1..])
  }

  /** The whole block `WriteHeaders` sends when no write fails. */
  function HeaderBlock(h: Headers.Headers, order: seq<Bytes>): Bytes
    requires forall i :: 0 <= i < |order| ==> order[i] in h
  {
    Lines(h, order) + Crlf
  }

  /** The `range` loop of `WriteHeaders`: one write per key, stopping at
      the first failure. */
  function WriteLines(w: Writer, h: Headers.Headers, order: seq<Bytes>): (r: WriteResult)
    requires forall i :: 0 <= i < |order| ==> order[i] in h
    ensures r.failed <==> !Accepts(w, |order|)
    ensures !r.failed ==> r.w.written == w.written + Lines(h, order)
    ensures !r.failed && w.accepts.Some? ==> r.w.accepts == Some(w.accepts.value - |order|)
    ensures !r.failed && w.accepts.None? ==> r.w.accepts.None?
    ensures r.failed ==> r.w.written == w.written + Lines(h, order[..w.accepts.value])
    decreases |order|
  {
    if order == [] then WriteResult(w, false)
    else
      var first := Write(w, HeaderLine(order[0], h[order[0]]));
      if first.failed then
        assert order[..0] == [];
        WriteResult(w, true)
      else
        var rest := WriteLines(first.w, h, order[1..]);
        assert rest.failed ==> order[1..][..w.accepts.value - 1] == order[..w.accepts.value][1..];
        rest
  }

  /** `WriteHeaders`, for the iteration order `order`: every line, then the
      blank line, when the writer takes all `|h| + 1` writes; otherwise the
      lines written before the first refused write, and no blank line. */
  function WriteHeaders(w: Writer, h: Headers.Headers, order: seq<Bytes>): (r: WriteResult)
    requires IsEnumeration(order, h)
    ensures r.failed <==> !Accepts(w, |order| + 1)
    ensures !r.failed ==> r.w.written == w.written + HeaderBlock(h, order)
    ensures r.failed ==> r.w.written == w.written + Lines(h, order[..w.accepts.value])
  {
    var lines := WriteLines(w, h, order);
    if lines.failed then lines
    else
      var last := Write(lines.w, Crlf);
      assert last.failed ==> order[..w.accepts.value] == order;
      last
  }

  /** An enumeration has exactly as many keys as the map. */
  lemma {:induction false} EnumerationSize(order: seq<Bytes>, h: Headers.Headers)
    requires IsEnumeration(order, h)
    ensures |order| == |h|
    decreases |order|
  {
    if order != [] {
      var h' := h - {order[0]};
      assert IsEnumeration(order[1..], h') by {
        forall k | k in h'
          ensures k in order[1..]
        {
          var i :| 0 <= i < |order| && order[i] == k;
          assert i != 0;
          assert order[1..][i - 1] == k;
        }
      }
      EnumerationSize(order[1..], h');
      assert h.Keys == h'.Keys + {order[0]};
    } else {
      assert h.Keys == {};
    }
  }

  /** The empty map has only the empty enumeration, and its block is the
      blank line alone. */
  lemma EmptyHeaderBlock(order: seq<Bytes>)
    requires IsEnumeration(order, map[])
    ensures order == [] && HeaderBlock(map[], order) == "\r\n"
  {
    EnumerationSize(order, map[]);
  }

  /** The bytes one entry contributes to the block. */
  function EntrySize(h: Headers.Headers, k: Bytes): nat
    requires k in h
  {
    |k| + |h[k]| + 4
  }

  /** The sum, over the entries of `h`, of the key length plus the value
      length plus 4, taken in no particular order. */
  ghost function Size(h: Headers.Headers): nat
    decreases |h|
  {
    if h == map[] then 0
    else
      var k :| k in h;
      assert |h - {k}| < |h| by {
        assert h.Keys == (h - {k}).Keys + {k};
      }
      EntrySize(h, k) + Size(h - {k})
  }

  /** `Size` may take out any key first: the sum does not depend on the
      order of the entries. */
  lemma {:induction false} SizeWithout(h: Headers.Headers, k: Bytes)
    requires k in h
    ensures Size(h) == EntrySize(h, k) + Size(h - {k})
    decreases |h|
  {
    var j :| j in h && Size(h) == EntrySize(h, j) + Size(h - {j});
    if j != k {
      var hj := h - {j};
      var hk := h - {k};
      assert |hj| < |h| by { assert h.Keys == hj.Keys + {j}; }
      assert |hk| < |h| by { assert h.Keys == hk.Keys + {k}; }
      SizeWithout(hj, k);
      SizeWithout(hk, j);
      assert hj - {k} == hk - {j};
      assert EntrySize(hj, k) == EntrySize(h, k) && EntrySize(hk, j) == EntrySize(h, j);
    }
  }

  /** Whatever the iteration order, the block is the same length: every
      entry's `|k| + |v| + 4`, plus 2 for the blank line. */
  lemma {:induction false} HeaderBlockLength(h: Headers.Headers, order: seq<Bytes>)
    requires IsEnumeration(order, h)
    ensures |HeaderBlock(h, order)| == Size(h) + 2
    decreases |order|
  {
    LinesLength(h, order);
  }

  lemma {:induction false} LinesLength(h: Headers.Headers, order: seq<Bytes>)
    requires IsEnumeration(order, h)
    ensures |Lines(h, order)| == Size(h)
    decreases |order|
  {
    if order == [] {
      assert h.Keys == {};
      assert h == map[];
    } else {
      var k := order[0];
      var h' := h - {k};
      assert IsEnumeration(order[1..], h') by {
        forall x | x in h'
          ensures x in order[1..]
        {
          var i :| 0 <= i < |order| && order[i] == x;
          assert i != 0;
          assert order[1..][i - 1] == x;
        }
      }
      assert Lines(h, order[1..]) == Lines(h', order[1..]) by {
        LinesSubmap(h, h', order[1..]);
      }
      LinesLength(h', order[1..]);
      SizeWithout(h, k);
    }
  }

  /** The lines depend only on the entries they list. */
  lemma {:induction false} LinesSubmap(h: Headers.Headers, h': Headers.Headers, order: seq<Bytes>)
    requires forall i :: 0 <= i < |order| ==> order[i] in h'
    requires forall k :: k in h' ==> k in h && h[k] == h'[k]
    ensures Lines(h, order) == Lines(h', order)
    decreases |order|
  {
    if order != [] {
      LinesSubmap(h, h', order[1..]);
    }
  }

  /** A header line the server writes is one `Headers.Parse` reads back:
      for a name made of token bytes and a value with no white space at
      its ends and no CRLF, parsing the line stores the value under the
      lower-cased name and consumes exactly the line. */
  lemma HeaderLineParses(h: Headers.Headers, name: Bytes, value: Bytes, rest: Bytes)
    requires |name| > 0 && Headers.IsToken(name)
    requires ByteStrings.IsTrimmed(value) && ByteStrings.NoCrlf(value)
    ensures Headers.Parse(h, HeaderLine(name, value) + rest)
         == Headers.ParseResult(Headers.Store(h, ByteStrings.ToLower(name), value), |name| + |value| + 4, false, None)
  {
    var v := [Sp] + value;
    var data := name + [Colon] + v + Crlf + rest;
    assert HeaderLine(name, value) + rest == data by {
      HeaderLineSplit(name, value, rest);
    }
    assert Headers.Parse(h, data)
        == Headers.ParseResult(Headers.Store(h, ByteStrings.ToLower(name), value), |name| + |v| + 3, false, None) by {
      TokenName(name);
      SpacedValue(value);
      ByteStrings.NoCrlfJoin(name, Colon, v);
      Headers.ParseFieldLine(h, name, v, rest);
    }
  }

  /** The line as `Headers.Parse` sees it: the name, the colon, then the
      value with its leading space. */
  lemma HeaderLineSplit(name: Bytes, value: Bytes, rest: Bytes)
    ensures HeaderLine(name, value) + rest == name + [Colon] + ([Sp] + value) + Crlf + rest
  {
    assert ": " == [Colon] + [Sp];
  }

  /** A non-empty token has no colon, no CRLF, no white space at its ends
      and does not end in a space. */
  lemma TokenName(name: Bytes)
    requires |name| > 0 && Headers.IsToken(name)
    ensures Colon !in name && ByteStrings.NoCrlf(name)
    ensures name[|name| - 1] != Sp && ByteStrings.TrimSpace(name) == name
  {
    forall i | 0 <= i < |name| ensures name[i] != Colon && !ByteStrings.CrlfAt(name, i) {
      assert Headers.IsTokenChar(name[i]);
    }
    assert Headers.IsTokenChar(name[0]) && Headers.IsTokenChar(name[|name| - 1]);
    assert [] + name + [] == name;
    ByteStrings.TrimSpaceOf([], name, []);
  }

  /** The value as it follows the colon: one space, which trimming takes
      off again. */
  lemma SpacedValue(value: Bytes)
    requires ByteStrings.IsTrimmed(value) && ByteStrings.NoCrlf(value)
    ensures ByteStrings.NoCrlf([Sp] + value) && ByteStrings.TrimSpace([Sp] + value) == value
  {
    var v := [Sp] + value;
    forall i | 0 <= i < |v| ensures !ByteStrings.CrlfAt(v, i) {
      if i > 0 {
        assert !ByteStrings.CrlfAt(value, i - 1);
      }
    }
    assert [Sp] + value + [] == v;
    ByteStrings.TrimSpaceOf([Sp], value, []);
  }

  /** `GetDefaultHeaders`: the three fields every response carries, with
      their names spelled in mixed case. */
  function GetDefaultHeaders(contentLength: int): (h: Headers.Headers)
    ensures |h| == 3
  {
    map["Content-Length" := Decimal.FormatInt(contentLength), "Connection" := "close", "Content-Type" := "text/plain"]
  }

  /** The default `Content-Length` reads back as the length it was made
      from, and the other two fields are fixed. */
  lemma DefaultHeaderValues(contentLength: int)
    requires Decimal.InInt64(contentLength)
    ensures var h := GetDefaultHeaders(contentLength);
      && h.Keys == {"Content-Length", "Connection", "Content-Type"}
      && Decimal.Atoi(h["Content-Length"]) == Some(contentLength)
      && h["Connection"] == "close"
      && h["Content-Type"] == "text/plain"
  {
    Decimal.AtoiFormatInt(contentLength);
  }

  /** The default names are stored as written, not lower-cased, so a
      case-insensitive `Headers.Get` (which looks up the lower-cased name)
      does not find them under any spelling. */
  lemma DefaultsMissLowerCaseLookup(contentLength: int, name: Bytes)
    requires ByteStrings.ToLower(name) == "content-length"
    ensures Headers.Get(GetDefaultHeaders(contentLength), name) == []
  {
    var h := GetDefaultHeaders(contentLength);
    assert "content-length" !in h by {
      assert "content-length"[0] != "Content-Length"[0];
      assert "content-length"[0] != "Connection"[0];
      assert "content-length"[0] != "Content-Type"[0];
    }
  }
}
