/** The header collection: a map from lower-cased field name to value,
    filled one `name: value` line at a time (section 5 of RFC 9112 for the
    line, section 5.6.2 of RFC 9110 for the name's character set,
    section 5.3 of RFC 9110 for folding a repeated name with ", "). */
module Headers {
  import opened Tokens
  import opened ByteStrings

  /** Field name to field value. Names stored by `Parse` are lower case;
      a map built directly (as the default response headers are) may hold
      any keys. */
  type Headers = map<Bytes, Bytes>

  /** The `tchar` set: letters, digits and ``!#$%&'*+-.^_`|~``. */
  predicate IsTokenChar(b: Byte) {
    || 'A' <= b <= 'Z'
    || 'a' <= b <= 'z'
    || '0' <= b <= '9'
    || b == '!' || b == '#' || b == '$' || b == '%' || b == '&'
    || b == '\'' || b == '*' || b == '+' || b == '-' || b == '.'
    || b == '^' || b == '_' || b == '`' || b == '|' || b == '~'
  }

  /** Every byte is a `tchar`; the empty name passes too. */
  predicate IsToken(name: Bytes) {
    forall i :: 0 <= i < |name| ==> IsTokenChar(name[i])
  }

  /** The byte loop that checks a field name, stopping at the first byte
      outside the token set. */
  method IsValidFieldName(fieldName: Bytes) returns (ok: bool)
    ensures ok <==> IsToken(fieldName)
  {
    for i := 0 to |fieldName|
      invariant forall j :: 0 <= j < i ==> IsTokenChar(fieldName[j])
    {
      if !IsTokenChar(fieldName[i]) {
        return false;
      }
    }
    return true;
  }

  /** `-1` for a missing index, as the Go code writes it. */
  function IndexOrMinusOne(o: Option<nat>): int {
    match o
    case Some(i) => i
    case None => -1
  }

  /** The single scan at the top of `Parse`: it records the first colon
      while looking for the first CRLF, and stops at that CRLF, so the
      colon it reports is the first one on the line. */
  method ScanLine(data: Bytes) returns (crlfIndex: int, colonIndex: int)
    ensures crlfIndex == IndexOrMinusOne(IndexOfCrlf(data))
    ensures crlfIndex >= 0 ==> colonIndex == IndexOrMinusOne(IndexOfByte(data[..crlfIndex], Colon))
  {
    crlfIndex := -1;
    colonIndex := -1;
    var i := 0;
    while i < |data|
      invariant 0 <= i <= |data|
      invariant forall j :: 0 <= j < i ==> !CrlfAt(data, j)
      invariant colonIndex == -1 ==> Colon !in data[..i]
      invariant colonIndex != -1 ==>
        0 <= colonIndex < i && data[colonIndex] == Colon && Colon !in data[..colonIndex]
    {
      if colonIndex == -1 && data[i] == Colon {
        colonIndex := i;
      }
      if i + 1 < |data| && data[i] == Cr && data[i + 1] == Lf {
        crlfIndex := i;
        break;
      }
      assert data[..i + 1] == data[..i] + [data[i]];
      i := i + 1;
    }
    if crlfIndex >= 0 {
      IndexOfCrlfIs(data, crlfIndex);
      var line := data[..crlfIndex];
      if colonIndex == -1 {
        assert Colon !in line;
      } else {
        assert line[..colonIndex] == data[..colonIndex];
        IndexOfByteIs(line, Colon, colonIndex);
      }
    } else {
      assert NoCrlf(data);
    }
  }

  datatype HeaderError =
    | MissingEndOfHeaders  // no bytes at all were offered
    | MalformedFieldLine   // no colon, a colon first, or a space before the colon
    | InvalidFieldName     // a byte outside the token set in the name

  /** What one `Parse` call returns: the collection afterwards, the bytes
      consumed, whether the blank line ending the section was seen, and the
      error if any. */
  datatype ParseResult = ParseResult(headers: Headers, n: nat, done: bool, err: Option<HeaderError>)

  /** Add one field: a new name is stored as given, a repeated one has
      ", " and the new value appended to what it had. */
  function Store(h: Headers, key: Bytes, value: Bytes): (r: Headers)
    ensures r.Keys == h.Keys + {key}
    ensures key !in h ==> r[key] == value
    ensures key in h ==> r[key] == h[key] + ", " + value
    ensures forall k :: k in h && k != key ==> r[k] == h[k]
  {
    if key in h then h[key := h[key] + ", " + value] else h[key := value]
  }

  /** `Headers.Parse`: read at most one header line from the front of
      `data`. */
  function Parse(h: Headers, data: Bytes): (r: ParseResult)
    ensures r.n <= |data|
    ensures r.err.Some? ==> r.n == 0 && !r.done && r.headers == h
    ensures r.err == Some(MissingEndOfHeaders) <==> |data| == 0
    ensures |data| > 0 && NoCrlf(data) ==> r == ParseResult(h, 0, false, None)
    ensures CrlfAt(data, 0) ==> r == ParseResult(h, 2, true, None)
    ensures r.done ==> CrlfAt(data, 0) && r.n == 2 && r.headers == h
    ensures r.err.None? && r.n == 0 ==> NoCrlf(data) && r.headers == h
  {
    if |data| == 0 then ParseResult(h, 0, false, Some(MissingEndOfHeaders))
    else
      match IndexOfCrlf(data)
      case None => ParseResult(h, 0, false, None)
      case Some(crlf) =>
        if crlf == 0 then ParseResult(h, |Crlf|, true, None)
        else FieldLine(h, data[..crlf])
  }

  /** The part of `Parse` that handles one non-empty line (the bytes before
      its CRLF): split at the first colon, validate, trim, lower-case the
      name and store. */
  function FieldLine(h: Headers, line: Bytes): (r: ParseResult)
    ensures r.err.Some? ==> r.n == 0 && !r.done && r.headers == h
    ensures r.err.None? ==> r.n == |line| + |Crlf| && !r.done
  {
    match IndexOfByte(line, Colon)
    case None => ParseResult(h, 0, false, Some(MalformedFieldLine))
    case Some(colon) =>
      if colon == 0 || line[colon - 1] == Sp then
        ParseResult(h, 0, false, Some(MalformedFieldLine))
      else
        var fieldName := TrimSpace(line[..colon]);
        var fieldValue := TrimSpace(line[colon + 1..]);
        if !IsToken(fieldName) then ParseResult(h, 0, false, Some(InvalidFieldName))
        else ParseResult(Store(h, ToLower(fieldName), fieldValue), |line| + |Crlf|, false, None)
  }

  /** `Headers.Get`: look a name up case-insensitively; a missing name
      reads as the empty string. */
  function Get(h: Headers, key: Bytes): (v: Bytes)
    ensures ToLower(key) in h ==> v == h[ToLower(key)]
    ensures ToLower(key) !in h ==> v == []
  {
    var k := ToLower(key);
    if k in h then h[k] else []
  }

  /** A stored field line consumes exactly one line: everything up to and
      including the first CRLF, and nothing after it. */
  lemma ParseConsumesOneLine(h: Headers, data: Bytes)
    ensures var r := Parse(h, data);
      r.err.None? && !r.done && r.n > 0 ==>
        && r.n >= 3
        && CrlfAt(data, r.n - 2)
        && (forall j :: 0 <= j < r.n - 2 ==> !CrlfAt(data, j))
  {
  }

  /** The blank line on its own ends the section and leaves an empty
      collection empty. */
  lemma ExampleBlankLine()
    ensures Parse(map[], "\r\n") == ParseResult(map[], 2, true, None)
  {
    assert CrlfAt("\r\n", 0);
  }

  /** A line with no colon before its CRLF is rejected and nothing is
      consumed or stored. */
  lemma ParseNoColon(h: Headers, line: Bytes, rest: Bytes)
    requires |line| > 0 && NoCrlf(line) && Colon !in line
    ensures Parse(h, line + Crlf + rest) == ParseResult(h, 0, false, Some(MalformedFieldLine))
  {
    var data := line + Crlf + rest;
    LineEnd(line, rest);
    assert data[..|line|] == line;
  }

  /** A line `name:value`, split at its first colon (later colons belong to
      the value). An empty name or one ending in a space is malformed; a
      name whose trimmed form has a non-token byte is invalid; otherwise the
      lower-cased trimmed name is stored with the trimmed value and exactly
      the line and its CRLF are consumed. */
  lemma ParseFieldLine(h: Headers, name: Bytes, value: Bytes, rest: Bytes)
    requires Colon !in name
    requires NoCrlf(name + [Colon] + value)
    ensures var r := Parse(h, name + [Colon] + value + Crlf + rest);
      && ((|name| == 0 || name[|name| - 1] == Sp) ==>
            r == ParseResult(h, 0, false, Some(MalformedFieldLine)))
      && ((|name| > 0 && name[|name| - 1] != Sp && !IsToken(TrimSpace(name))) ==>
            r == ParseResult(h, 0, false, Some(InvalidFieldName)))
      && ((|name| > 0 && name[|name| - 1] != Sp && IsToken(TrimSpace(name))) ==>
            r == ParseResult(Store(h, ToLower(TrimSpace(name)), TrimSpace(value)),
                             |name| + |value| + 3, false, None))
  {
    ParseIsFieldLine(h, name + [Colon] + value, rest);
    FieldLineOf(h, name, value);
  }

  /** A complete non-empty line is handed to `FieldLine`, whatever follows
      its CRLF. */
  lemma ParseIsFieldLine(h: Headers, line: Bytes, rest: Bytes)
    requires |line| > 0 && NoCrlf(line)
    ensures Parse(h, line + Crlf + rest) == FieldLine(h, line)
  {
    var data := line + Crlf + rest;
    LineEnd(line, rest);
    assert data[..|line|] == line;
  }

  /** `FieldLine` on `name:value`, one outcome per case of the name. */
  lemma FieldLineOf(h: Headers, name: Bytes, value: Bytes)
    requires Colon !in name
    ensures var r := FieldLine(h, name + [Colon] + value);
      && ((|name| == 0 || name[|name| - 1] == Sp) ==>
            r == ParseResult(h, 0, false, Some(MalformedFieldLine)))
      && ((|name| > 0 && name[|name| - 1] != Sp && !IsToken(TrimSpace(name))) ==>
            r == ParseResult(h, 0, false, Some(InvalidFieldName)))
      && ((|name| > 0 && name[|name| - 1] != Sp && IsToken(TrimSpace(name))) ==>
            r == ParseResult(Store(h, ToLower(TrimSpace(name)), TrimSpace(value)),
                             |name| + |value| + 3, false, None))
  {
    var line := name + [Colon] + value;
    SplitAtColon(name, value);
    if |name| == 0 {
      FieldLineColonFirst(h, line);
    } else if name[|name| - 1] == Sp {
      FieldLineSpaceBeforeColon(h, line, |name|);
    } else if !IsToken(TrimSpace(name)) {
      FieldLineInvalid(h, line, |name|);
    } else {
      FieldLineStored(h, line, |name|);
    }
  }

  /** The first colon of `name:value` is the one after `name`. */
  lemma SplitAtColon(name: Bytes, value: Bytes)
    requires Colon !in name
    ensures var line := name + [Colon] + value;
      && IndexOfByte(line, Colon) == Some(|name|)
      && line[..|name|] == name && line[|name| + 1..] == value
      && (|name| > 0 ==> line[|name| - 1] == name[|name| - 1])
  {
    var line := name + [Colon] + value;
    assert line[..|name|] == name;
    IndexOfByteIs(line, Colon, |name|);
    assert line[|name| + 1..] == value;
  }

  /** A colon first on the line is malformed. */
  lemma FieldLineColonFirst(h: Headers, line: Bytes)
    requires IndexOfByte(line, Colon) == Some(0)
    ensures FieldLine(h, line) == ParseResult(h, 0, false, Some(MalformedFieldLine))
  {
    match IndexOfByte(line, Colon)
    case Some(c) => assert c == 0;
  }

  /** A space just before the first colon is malformed. */
  lemma FieldLineSpaceBeforeColon(h: Headers, line: Bytes, colon: nat)
    requires IndexOfByte(line, Colon) == Some(colon)
    requires colon > 0 && line[colon - 1] == Sp
    ensures FieldLine(h, line) == ParseResult(h, 0, false, Some(MalformedFieldLine))
  {
  }

  /** A trimmed name with a byte outside the token set is invalid. */
  lemma FieldLineInvalid(h: Headers, line: Bytes, colon: nat)
    requires IndexOfByte(line, Colon) == Some(colon)
    requires colon > 0 && line[colon - 1] != Sp && !IsToken(TrimSpace(line[..colon]))
    ensures FieldLine(h, line) == ParseResult(h, 0, false, Some(InvalidFieldName))
  {
  }

  /** Otherwise the trimmed value is stored under the lower-cased trimmed name. */
  lemma FieldLineStored(h: Headers, line: Bytes, colon: nat)
    requires IndexOfByte(line, Colon) == Some(colon)
    requires colon > 0 && line[colon - 1] != Sp && IsToken(TrimSpace(line[..colon]))
    ensures FieldLine(h, line)
         == ParseResult(Store(h, ToLower(TrimSpace(line[..colon])), TrimSpace(line[colon + 1..])),
                        |line| + |Crlf|, false, None)
  {
  }

  /** After a field line is stored, `Get` finds its value under any
      spelling of the name that lower-cases to the stored key. */
  lemma GetAfterParse(h: Headers, name: Bytes, value: Bytes, rest: Bytes, lookup: Bytes)
    requires Colon !in name && |name| > 0 && name[|name| - 1] != Sp
    requires NoCrlf(name + [Colon] + value)
    requires IsToken(TrimSpace(name))
    requires ToLower(TrimSpace(name)) !in h
    requires ToLower(lookup) == ToLower(TrimSpace(name))
    ensures Get(Parse(h, name + [Colon] + value + Crlf + rest).headers, lookup) == TrimSpace(value)
  {
    ParseFieldLine(h, name, value, rest);
  }

  /** Every name in the collection is in lower case. */
  predicate KeysLower(h: Headers) {
    forall k :: k in h ==> forall i :: 0 <= i < |k| ==> !IsUpper(k[i])
  }

  /** `Parse` stores names only in lower case, so a collection built by
      parsing, starting from the empty one, has lower-case names only. */
  lemma ParseKeepsKeysLower(h: Headers, data: Bytes)
    requires KeysLower(h)
    ensures KeysLower(Parse(h, data).headers)
  {
    if |data| > 0 {
      match IndexOfCrlf(data)
      case None =>
      case Some(crlf) =>
        if crlf > 0 {
          FieldLineKeepsKeysLower(h, data[..crlf]);
        }
    }
  }

  /** One field line adds at most the lower-cased trimmed name. */
  lemma FieldLineKeepsKeysLower(h: Headers, line: Bytes)
    requires KeysLower(h)
    ensures KeysLower(FieldLine(h, line).headers)
    ensures IndexOfByte(line, Colon).None? ==> FieldLine(h, line).headers == h
    ensures IndexOfByte(line, Colon).Some? ==>
      FieldLine(h, line).headers.Keys <= h.Keys + {ToLower(TrimSpace(line[..IndexOfByte(line, Colon).value]))}
  {
    match IndexOfByte(line, Colon)
    case None =>
    case Some(colon) =>
      if colon == 0 {
        FieldLineColonFirst(h, line);
      } else if line[colon - 1] == Sp {
        FieldLineSpaceBeforeColon(h, line, colon);
      } else if !IsToken(TrimSpace(line[..colon])) {
        FieldLineInvalid(h, line, colon);
      } else {
        var name := TrimSpace(line[..colon]);
        FieldLineStored(h, line, colon);
        ToLowerNormalises(name);
        StoreKeepsKeysLower(h, ToLower(name), TrimSpace(line[colon + 1..]));
      }
  }

  /** Storing under a lower-case name keeps every name lower case. */
  lemma StoreKeepsKeysLower(h: Headers, name: Bytes, value: Bytes)
    requires KeysLower(h) && name == ToLower(name)
    ensures KeysLower(Store(h, name, value))
  {
    ToLowerNormalises(name);
  }

  /** In a collection with lower-case names, the case-insensitive `Get`
      finds every entry under its own name. */
  lemma GetFindsEveryKey(h: Headers)
    requires KeysLower(h)
    ensures forall k :: k in h ==> Get(h, k) == h[k]
  {
    forall k | k in h
      ensures Get(h, k) == h[k]
    {
      ToLowerOfLower(k);
    }
  }
}
