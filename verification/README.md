# go-http-server: request parsing and response writing, modelled in Dafny

The system is a small HTTP/1.1 server written in Go. Its logic lives in
three byte-level components, and this project models all three:

- **Header collection** (`internal/headers/headers.go`). `Headers.Parse`
  reads at most one `name: value` line from a buffer. It rejects a line
  with no colon, with the colon first, or with a space just before the
  colon. It checks the trimmed name against the `tchar` set of section
  5.6.2 of RFC 9110. It then stores the lower-cased name with the trimmed
  value, joining a repeated name's values with `", "`. `Get` looks a name
  up case-insensitively.
- **Request parser** (`internal/request/request.go`). `parseRequestLine`
  wants exactly three single-space-separated fields, an upper-case method
  and the version `HTTP/1.1`. `Request.parse` is a four-state machine
  (Initialized, ParsingHeaders, ParsingBody, Done); each call reports how
  many bytes it consumed. `RequestFromReader` reads from a stream into a
  buffer that starts at 8 bytes and doubles when full. It offers the
  buffered bytes to `parse` and shifts the consumed prefix out.
- **Response writer** (`internal/response/response.go`). It writes the
  status line for 200, 400 and 500, and the header block: one
  `name: value\r\n` line per field, then a blank line. It also builds the
  three default headers.

Modules:

- `Tokens`: the byte type and the protocol constants.
- `ByteStrings`: CRLF and byte search, split, trim and lower-case.
- `Decimal`: `strconv.Atoi` and `%d` formatting.
- `Headers`, `Request` and `Response`: the three components.
- `Driver`: the `RequestFromReader` loop.

The driver is modelled twice. `Driver.Run` is a pure function over a
functional loop state. `Driver.Drive` is a method over an array buffer
with the source's grow, read, parse and shift steps. `Drive` is proved
to compute exactly what `Run` computes. The stream is a script of chunks
(`Data` or `Failure`); a chunk larger than the free space is delivered
over several reads. The writer accepts a scripted number of `Write`
calls and refuses every one after that. Go's map iteration order is
unspecified, so `WriteHeaders` takes the iteration order as a parameter;
it must list every key exactly once.

## Model

| member | source | states |
|---|---|---|
| ByteStrings.IndexOfCrlf | internal/request/request.go:161-164 | `bytes.Index(data, CRLF)`: the result is a CRLF position with no CRLF before it, and it is missing exactly when the data holds no CRLF |
| ByteStrings.LineEnd | internal/request/request.go:161-165 | a CRLF-free line followed by CRLF ends at that CRLF, whatever comes after it |
| ByteStrings.NoCrlfJoin | internal/response/response.go:41 | joining two CRLF-free pieces with a byte that is neither CR nor LF creates no CRLF, so a header line has its line end only where it is written |
| ByteStrings.IndexOfByte | internal/headers/headers.go:41-44 | the first occurrence of a byte: it holds the byte, no earlier position does, and the result is missing exactly when the byte is absent |
| ByteStrings.Split | internal/request/request.go:167 | `bytes.Split` on one byte: at least one piece, no piece holds the separator, and joining the pieces with the separator gives the input back |
| ByteStrings.SplitJoin | internal/request/request.go:167 | splitting undoes joining for separator-free pieces, so a line's fields are determined by the line |
| ByteStrings.SplitCount | internal/request/request.go:167-170 | the number of pieces is one more than the number of separators, so a line has three fields exactly when it has two spaces |
| ByteStrings.TrimSpace | internal/headers/headers.go:64-65 | the result has no white space at either end and is no longer than the input |
| ByteStrings.TrimSpaceSplits | internal/headers/headers.go:64-65 | only white space is removed, and only from the two ends: the result is a contiguous piece of the input with white space on both sides |
| ByteStrings.TrimSpaceOf | internal/headers/headers.go:64-65 | white space around a trimmed core is exactly what trimming removes |
| ByteStrings.ToLower | internal/headers/headers.go:71 | ASCII lower-casing byte for byte, with the length kept |
| ByteStrings.ToLowerNormalises | internal/headers/headers.go:71 | no upper-case letter is left, and lower-casing twice is lower-casing once, which is why every stored name is its own lower-case form |
| ByteStrings.ToLowerOfLower | internal/headers/headers.go:81-83 | a name with no upper-case letter is its own lower-case form |
| Decimal.Atoi | internal/request/request.go:90-93 | `strconv.Atoi`: succeeds exactly for an optional sign and at least one digit whose value fits 64 bits; without a `-` the value is not negative |
| Decimal.Digits | internal/response/response.go:52 | the digits of a number, with no leading zero except in `0` itself |
| Decimal.FormatInt | internal/response/response.go:52 | `%d`: non-empty, and starts with `-` exactly for negative numbers |
| Decimal.ValueOfDigits | internal/response/response.go:52 | the digits of a number denote that number |
| Decimal.AtoiFormatInt | internal/response/response.go:52 | for every 64-bit integer, parsing its `%d` text gives the integer back |
| Decimal.Zeros | internal/request/request.go:90 | a run of `k` zero digits, the leading zeros `strconv.Atoi` accepts |
| Decimal.ValueOfAllZeros | internal/request/request.go:90 | a run of zero digits denotes zero |
| Decimal.ValueOfZeros | internal/request/request.go:90 | leading zeros do not change the number a digit string denotes |
| Decimal.AtoiUnsigned | internal/request/request.go:90-93 | an unsigned digit string up to the 64-bit maximum parses to the number it denotes |
| Decimal.AtoiSigned | internal/request/request.go:90-93 | `+` or `-` then digits parses to the number the digits denote, negated after `-`, when that fits 64 bits |
| Decimal.AtoiValue | internal/request/request.go:90-93 | no sign, `+` or `-`, then any number of leading zeros, then the digits of `m`, parses to `m`, negated after `-`, whenever that fits 64 bits |
| Headers.IsValidFieldName | internal/headers/headers.go:85-99 | the byte loop accepts a name exactly when every byte is a `tchar`; the empty name passes |
| Headers.ScanLine | internal/headers/headers.go:38-49 | the single scan finds the first CRLF (or -1) and, before it, the first colon on that line (or -1) |
| Headers.Store | internal/headers/headers.go:71-76 | a new name gets the value, a repeated one gets old value + `", "` + new value, and every other name is untouched |
| Headers.Parse | internal/headers/headers.go:32-79 | empty input is the only "missing end of headers" error; an error consumes nothing and changes nothing; no CRLF means wait with nothing consumed; a leading CRLF ends the section with 2 consumed and the map unchanged |
| Headers.FieldLine | internal/headers/headers.go:60-78 | a rejected line consumes nothing and leaves the map alone; an accepted one consumes the line and its CRLF |
| Headers.Get | internal/headers/headers.go:81-83 | the value stored under the lower-cased name, or the empty string when there is none |
| Headers.ParseConsumesOneLine | internal/headers/headers.go:78 | a stored line consumes up to and including the first CRLF, never more |
| Headers.ExampleBlankLine | internal/headers/headers.go:51-54 | `"\r\n"` alone gives 2 consumed, done, and an empty map stays empty |
| Headers.ParseNoColon | internal/headers/headers.go:60-62 | a line with no colon is malformed; nothing is consumed or stored |
| Headers.ParseFieldLine | internal/headers/headers.go:60-78 | for `name:value` split at the first colon: an empty name or one ending in a space is malformed; a trimmed name with a non-token byte is invalid; otherwise the trimmed value is stored under the lower-cased trimmed name and exactly the line plus CRLF is consumed |
| Headers.ParseIsFieldLine | internal/headers/headers.go:38-58 | a complete non-empty line followed by CRLF is judged as a field line on its own, whatever comes after the CRLF |
| Headers.FieldLineOf | internal/headers/headers.go:60-78 | for `name:value` with no colon in the name: an empty name or one ending in a space is malformed, a trimmed name with a non-token byte is invalid, and otherwise the trimmed value is stored under the lower-cased trimmed name with `name:value` plus CRLF consumed |
| Headers.SplitAtColon | internal/headers/headers.go:64-65 | the first colon of `name:value` is the one after the name, so the name and value are cut back out exactly |
| Headers.FieldLineColonFirst | internal/headers/headers.go:60-62 | a colon first on the line is malformed, with nothing consumed or stored |
| Headers.FieldLineSpaceBeforeColon | internal/headers/headers.go:60-62 | a space just before the first colon is malformed, with nothing consumed or stored |
| Headers.FieldLineInvalid | internal/headers/headers.go:64-69 | a trimmed name with a byte outside the token set is an invalid-name error, with nothing consumed or stored |
| Headers.FieldLineStored | internal/headers/headers.go:64-78 | otherwise the trimmed value is stored under the lower-cased trimmed name, and the line and its CRLF are consumed |
| Headers.GetAfterParse | internal/headers/headers.go:71-83 | after a new line is stored, `Get` under any spelling that lower-cases to the stored name returns the trimmed value |
| Headers.ParseKeepsKeysLower | internal/headers/headers.go:71-76 | parsing never stores a name with an upper-case letter, so a collection parsed from the empty one holds lower-case names only |
| Headers.FieldLineKeepsKeysLower | internal/headers/headers.go:60-78 | a field line keeps every stored name lower case; a line with no colon leaves the collection alone, and any other line adds no name except the lower-cased trimmed text before its first colon |
| Headers.StoreKeepsKeysLower | internal/headers/headers.go:71-76 | storing under a lower-case name keeps every name in the collection lower case |
| Headers.GetFindsEveryKey | internal/headers/headers.go:71-83 | in a collection of lower-case names, the case-insensitive `Get` finds every entry under its own name |
| Request.ValidateMethod | internal/request/request.go:189-201 | accepts exactly a non-empty run of `A`..`Z`; the empty method and any other byte give two different errors |
| Request.ValidateHttpVersion | internal/request/request.go:203-213 | accepts exactly `HTTP/1.1`; a missing `HTTP/` prefix and a wrong version after it give two different errors |
| Request.ParseRequestLine | internal/request/request.go:160-187 | no CRLF means an empty line, nothing consumed and no error; an error consumes nothing; on success the version is `1.1`, the method is upper case, the target has no space, exactly the line and its CRLF are consumed, and method SP target SP `HTTP/` version CRLF re-serialises to the consumed bytes |
| Request.FieldsError | internal/request/request.go:167-180 | the checks run in source order (field count, method, version); there is no error exactly for three fields with a valid method and `HTTP/1.1` |
| Request.ParseRequestLineFields | internal/request/request.go:160-187 | for a line given as three space-free fields: a bad method is reported first, then a bad version; otherwise the fields come back as given, the target may be empty, and the consumed count is the line length plus 2 |
| Request.FieldsParse | internal/request/request.go:160-187 | a line of three space-free fields is split back into exactly those fields, and `parseRequestLine` gives the error `FieldsError` picks for them, or the fields with the consumed count of the line plus CRLF |
| Request.ParseRequestLineWrongPartCount | internal/request/request.go:167-170 | a line whose space count is not two (a doubled or trailing space, a missing field) is rejected with nothing consumed |
| Request.ContentLengthIsGet | internal/request/request.go:84 | the body state's direct lookup of `content-length` is the source's case-insensitive `Headers.Get("content-length")` |
| Request.ParseStep | internal/request/request.go:51-108 | one call never consumes more than offered, and an error consumes nothing; the state stays or advances one step; only the start state changes the request line, only the header state the headers, and only the body state the body (by appending the offered bytes); in `Done` nothing changes |
| Request.LineStep | internal/request/request.go:55-67 | the start state either stays or moves to the header state, and leaves headers and body alone |
| Request.HeaderStep | internal/request/request.go:69-80 | the header state either stays or moves to the body state, and leaves the request line and body alone |
| Request.BodyStep | internal/request/request.go:82-99 | the body state either stays or reaches `Done`; the body is unchanged or extended by the offered bytes |
| Request.InitializedWaits | internal/request/request.go:161-164 | with no complete line, the start state consumes nothing and changes nothing |
| Request.InitializedRoundTrip | internal/request/request.go:55-67 | in the start state, an error leaves the request as it was; a success moves to the header state, records version `1.1`, and the recorded line re-serialises to the consumed bytes |
| Request.HeadersStep | internal/request/request.go:69-80 | a header error comes back with nothing consumed; the blank line moves to the body state and never straight to `Done`; any other line keeps the state and consumes what `Headers.Parse` consumed |
| Request.BodySkipped | internal/request/request.go:84-88 | with no Content-Length, or `0`, the body state reaches `Done` and consumes every offered byte without adding it to the body |
| Request.BodyAccumulates | internal/request/request.go:89-99 | with a numeric Content-Length, every offered byte is consumed and appended, and the state is `Done` exactly when the body length equals the declared length |
| Request.BodyBadLength | internal/request/request.go:89-93 | a non-numeric Content-Length is an error with nothing consumed, after the bytes were already appended to the body |
| Request.BodyZeroWithLeadingZero | internal/request/request.go:85-99 | only the exact texts `""` and `"0"` skip the body; `"00"` also declares zero bytes but goes through `Atoi`, so every offered byte is appended and the state is `Done` only when none was offered |
| Request.BodyOverrunNeverDone | internal/request/request.go:95-99 | once the body is longer than declared, no call reports an error or reaches `Done` |
| Request.BodyInTwoPieces | internal/request/request.go:89-99 | a body delivered in two pieces waits after the first and is `Done` after the second, holding both in order |
| Request.NoBodyNeedsAnotherCall | internal/request/request.go:75-88 | without a body, the blank line leads to the body state; one more call, with any bytes, reaches `Done` and consumes all of them |
| Driver.Read | internal/request/request.go:131-137 | a read delivers at most the free space; it reports EOF exactly when the stream is exhausted and an error exactly when the next chunk is a failure, delivering nothing in both cases; the delivered bytes followed by what remains make up the stream |
| Driver.Start | internal/request/request.go:113-118 | the loop starts with an empty buffer of capacity 8 and the whole stream unread |
| Driver.DoubleCapacity | internal/request/request.go:124-129 | doubling a reachable capacity gives a reachable capacity |
| Driver.ParseStepConsumes | internal/request/request.go:51-108 | the request parser never consumes more than it is offered |
| Driver.GrownCapacity | internal/request/request.go:124-129 | the buffer doubles exactly when it is full and is otherwise left as it is, its capacity stays 8 times a power of two, and for such a capacity the read after it always has room for at least one byte |
| Driver.Step | internal/request/request.go:121-153 | one iteration keeps `readToIndex <= len(buf)` and the capacity shape; the capacity doubles exactly when the buffer was full; it aborts with a read error exactly when the read fails, and otherwise aborts exactly when the parse fails, with the parser's error |
| Driver.StepContinues | internal/request/request.go:139-151 | a step that neither fails to read nor fails to parse leaves the buffer holding exactly the unconsumed tail of what was buffered |
| Driver.StepKeepsUnread | internal/request/request.go:139-151 | no byte is lost or duplicated: buffered plus stream afterwards is buffered plus stream before, minus exactly the consumed prefix |
| Driver.ShiftKeepsRest | internal/request/request.go:150-151 | dropping the consumed prefix of the buffer drops exactly that prefix from buffer plus stream |
| Driver.Run | internal/request/request.go:121-157 | a request comes back only in state `Done`, and a request already `Done` comes back at once |
| Driver.RunContinues | internal/request/request.go:121-153 | after a step that continues, the rest of the run is the run from the next state |
| Driver.RunAborts | internal/request/request.go:134-148 | a step that aborts ends the run with that step's error |
| Driver.RequestFromReader | internal/request/request.go:112-158 | the loop over the request parser computes exactly the functional run from the start state, and a request comes back only when `Done` |
| Driver.Drive | internal/request/request.go:112-158 | the array-buffer loop computes exactly the functional run, for any parser that never consumes more than it is offered |
| Driver.Iteration | internal/request/request.go:121-153 | one pass over the array buffer ends exactly as `Step` says: an error exactly when `Step` aborts with it, and otherwise the new buffer contents, capacity, request and stream are those of `Step`'s next state |
| Driver.Fill | internal/request/request.go:124-139 | the grow check and the read: the capacity afterwards is `GrownCapacity`, the read is `ReadStep`, and after a read that did not fail the buffer holds the old bytes then the bytes read |
| Driver.Grow | internal/request/request.go:124-129 | a new buffer twice as long that starts with the same bytes as the old one |
| Driver.Append | internal/request/request.go:131-139 | the bytes read land right after the buffered ones, and the fill level grows by their number |
| Driver.ShiftOut | internal/request/request.go:150-151 | the unconsumed bytes move to the front in order, and the fill level drops by the number consumed |
| Driver.StallsForever | internal/request/request.go:121-153 | with the stream exhausted and a parser that consumes nothing, the loop never returns (EOF is not an error) |
| Driver.TruncatedRequestLineHangs | internal/request/request.go:121-153 | a stream that ends before the request line's CRLF never yields a request |
| Driver.TruncatedBodyHangs | internal/request/request.go:121-153 | a stream that ends before the declared body length is reached never yields a request |
| Driver.TruncatedHeaderLineHangs | internal/request/request.go:121-153 | a stream that ends in the middle of a header line never yields a request: `Headers.Parse` keeps waiting for the CRLF |
| Driver.HeadersEndedAborts | internal/request/request.go:142-148 | in the header state with nothing buffered, a read of no bytes (at the end of the stream or not) ends the loop with the "missing end of headers" error, since `Headers.Parse` rejects empty input (internal/headers/headers.go:34-36) |
| Response.StatusLine | internal/response/response.go:21-31 | the text is empty exactly for a code with no reason phrase |
| Response.StatusLines | internal/response/response.go:22-31 | 200, 400 and 500 give exactly `HTTP/1.1 200 OK\r\n`, `HTTP/1.1 400 Bad Request\r\n` and `HTTP/1.1 500 Internal Server Error\r\n`; every other code gives the empty string |
| Response.OkLine | internal/response/response.go:23-24 | the status line for 200 is exactly `HTTP/1.1 200 OK\r\n` |
| Response.BadRequestLine | internal/response/response.go:25-26 | the status line for 400 is exactly `HTTP/1.1 400 Bad Request\r\n` |
| Response.InternalServerErrorLine | internal/response/response.go:27-28 | the status line for 500 is exactly `HTTP/1.1 500 Internal Server Error\r\n` |
| Response.Write | internal/response/response.go:32 | a write fails exactly when the writer accepts no more calls; a failed write changes nothing, and a successful one appends the bytes |
| Response.WriteStatusLine | internal/response/response.go:17-34 | one write of the status line; the only error is the writer's, so an unknown code writes nothing and succeeds |
| Response.HeaderLine | internal/response/response.go:41 | a header line is 4 bytes longer than its name and value together |
| Response.WriteLines | internal/response/response.go:40-45 | the lines fail exactly when the writer refuses one of them; on success every line is appended in order; on failure exactly the lines before the refused one are |
| Response.WriteHeaders | internal/response/response.go:36-48 | with enough accepted writes the output gains every line and then the blank line; otherwise it gains only the lines before the first refused write, and no blank line |
| Response.EnumerationSize | internal/response/response.go:40 | an iteration order visits exactly as many keys as the map has |
| Response.EmptyHeaderBlock | internal/response/response.go:40-47 | the empty map's block is exactly `\r\n` |
| Response.SizeWithout | internal/response/response.go:40-45 | the sum of entry sizes does not depend on the order the entries are taken in |
| Response.HeaderBlockLength | internal/response/response.go:40-47 | whatever the iteration order, the block's length is the sum over entries of name length + value length + 4, plus 2 |
| Response.LinesLength | internal/response/response.go:40-45 | the lines' length is that sum over entries, whatever the order |
| Response.LinesSubmap | internal/response/response.go:40-45 | the lines depend only on the entries they list |
| Response.HeaderLineParses | internal/response/response.go:41 | a header line the server writes, with a token name and a value trimmed and free of CRLF, is read back by `Headers.Parse`: the value is stored under the lower-cased name and exactly the line is consumed |
| Response.GetDefaultHeaders | internal/response/response.go:50-57 | the default collection has exactly three entries |
| Response.DefaultHeaderValues | internal/response/response.go:50-57 | the keys are `Content-Length`, `Connection` and `Content-Type`; the first reads back through `Atoi` as the given length; the others are `close` and `text/plain` |
| Response.DefaultsMissLowerCaseLookup | internal/response/response.go:52-54 | the default names are stored in mixed case, so `Headers.Get`, which looks up the lower-cased name, finds no Content-Length under any spelling |

## Left out

- `internal/server/server.go`: the TCP listener, the accept loop, the atomic close flag and the goroutine per connection. This is concurrency and socket I/O. `HandlerError.Write` is one formatted write to the socket.
- `cmd/httpserver/main.go` and `cmd/tcplistener/main.go`: an example handler, signal handling and printing.
- `sanitize` and every `fmt.Printf`/`fmt.Println` debug line in `internal/request/request.go` and in `internal/headers/headers.go` (its own `sanitize` at headers.go:12-24 and the debug prints in `Parse`): logging only.
- The `default` branch of `Request.parse` (the unknown-state error): a Dafny datatype has only the four states, so that branch cannot be reached.
- `io.Reader` and `io.Writer` in general. Reads are a script of chunks. A read never returns bytes together with EOF or with an error. A failed write delivers nothing; partial writes are not modelled.
- Driver.RequestFromReader: termination is not proved, because the source loop does not always end when the stream ends early. It spins forever, reading `(0, EOF)`, when the stream ends before the request line's CRLF (`TruncatedRequestLineHangs`), in the middle of a header line (`TruncatedHeaderLineHangs`), or inside a body whose Content-Length is not yet met (`TruncatedBodyHangs`); `StallsForever` is the general statement. When the stream ends between header lines it does end, with the "missing end of headers" error (`HeadersEndedAborts`). The loop has a fuel bound, and `OutOfFuel` stands for a loop still spinning.
- ByteStrings.TrimSpace: ASCII white space only; Go's `bytes.TrimSpace` also strips Unicode white space.
- ByteStrings.ToLower: ASCII letters only; Go's `strings.ToLower` in `Get` also maps non-ASCII letters.
- Decimal.Atoi: its own contract says when parsing succeeds and fixes the sign, not the value; `Decimal.AtoiUnsigned`, `Decimal.AtoiSigned` and `Decimal.AtoiValue` give the value. It covers base 10 with an optional sign, bounded by 64 bits, which is the whole of `strconv.Atoi` on a 64-bit platform. The error value's text is not modelled, only that there is one.
- Error messages in general: each error is a constructor, not the Go error text.
- Response.WriteHeaders: Go's map iteration order is unspecified, so the order is a parameter. Every valid order is covered, but none is singled out.
- Chunked response writing, header set/delete/replace and a "body longer than declared" error are not in the code, so they are not in the model.
- `internal/headers/headers_test.go` indexes the map with mixed-case keys (`Host`, `Content-Type`), but the code stores lower-cased names. The model follows the code. The byte counts those tests expect agree with `Headers.ParseFieldLine`.
- When the headers end, the code always moves to ParsingBody and decides "no body" only on the next call. A body that runs past Content-Length raises no error. The model keeps both behaviours (`Request.NoBodyNeedsAnotherCall`, `Request.BodyOverrunNeverDone`).
