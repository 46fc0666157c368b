/** The byte-string operations the parsers rely on: searching for CRLF and
    for a single byte, splitting on a separator, trimming ASCII white space
    and ASCII lower-casing. Each is given by a characterising contract, so
    the parsers can be reasoned about without unfolding these bodies. */
module ByteStrings {
  import opened Tokens

  /** A CRLF starts at index `i` of `s`. */
  predicate CrlfAt(s: Bytes, i: int) {
    0 <= i && i + 1 < |s| && s[i] == Cr && s[i + 1] == Lf
  }

  predicate NoCrlf(s: Bytes) {
    forall i :: 0 <= i < |s| ==> !CrlfAt(s, i)
  }

  /** The index of the first CRLF in `s`, as `bytes.Index(s, CRLF)`. */
  function IndexOfCrlf(s: Bytes): (r: Option<nat>)
    ensures r.Some? ==> CrlfAt(s, r.value) && forall j :: 0 <= j < r.value ==> !CrlfAt(s, j)
    ensures r.None? <==> NoCrlf(s)
  {
    if |s| < 2 then None
    else if s[0] == Cr && s[1] == Lf then Some(0)
    else
      match IndexOfCrlf(s[1..])
      case None =>
        assert forall i :: CrlfAt(s, i) ==> i == 0 || CrlfAt(s[1..], i - 1);
        None
      case Some(i) =>
        assert forall j :: 0 < j <= i ==> (CrlfAt(s, j) <==> CrlfAt(s[1..], j - 1));
        assert CrlfAt(s, i + 1);
        Some(i + 1)
  }

  /** `IndexOfCrlf` finds exactly the first CRLF. */
  lemma IndexOfCrlfIs(s: Bytes, k: nat)
    requires CrlfAt(s, k) && forall j :: 0 <= j < k ==> !CrlfAt(s, j)
    ensures IndexOfCrlf(s) == Some(k)
  {
    assert !NoCrlf(s) by { assert CrlfAt(s, k); }
  }

  /** A line free of CRLF, then CRLF: the first CRLF is the terminator,
      whatever follows it. */
  lemma LineEnd(line: Bytes, rest: Bytes)
    requires NoCrlf(line)
    ensures IndexOfCrlf(line + Crlf + rest) == Some(|line|)
  {
    var s := line + Crlf + rest;
    forall j | 0 <= j < |line|
      ensures !CrlfAt(s, j)
    {
      if j + 1 < |line| {
        assert !CrlfAt(line, j);
      } else {
        assert s[j + 1] == Cr;
      }
    }
    IndexOfCrlfIs(s, |line|);
  }

  /** No CRLF appears across a separator that is neither CR nor LF. */
  lemma NoCrlfJoin(a: Bytes, x: Byte, b: Bytes)
    requires NoCrlf(a) && NoCrlf(b) && x != Cr && x != Lf
    ensures NoCrlf(a + [x] + b)
  {
    var s := a + [x] + b;
    forall i | 0 <= i < |s|
      ensures !CrlfAt(s, i)
    {
      if i + 1 < |a| {
        assert !CrlfAt(a, i);
      } else if i > |a| {
        assert !CrlfAt(b, i - |a| - 1);
      }
    }
  }

  /** The index of the first occurrence of `b` in `s`. */
  function IndexOfByte(s: Bytes, b: Byte): (r: Option<nat>)
    ensures r.Some? ==> r.value < |s| && s[r.value] == b && b !in s[..r.value]
    ensures r.None? <==> b !in s
  {
    if |s| == 0 then None
    else if s[0] == b then Some(0)
    else
      match IndexOfByte(s[1..], b)
      case None => None
      case Some(i) =>
        assert s[..i + 1] == [s[0]] + s[1..][..i];
        Some(i + 1)
  }

  /** How many times `b` occurs in `s`. */
  function Count(s: Bytes, b: Byte): nat {
    if |s| == 0 then 0 else (if s[0] == b then 1 else 0) + Count(s[1..], b)
  }

  /** `bytes.Split(s, []byte{sep})`: the maximal pieces between separators. */
  function Split(s: Bytes, sep: Byte): (parts: seq<Bytes>)
    ensures |parts| >= 1
    ensures forall i :: 0 <= i < |parts| ==> sep !in parts[i]
    ensures Join(parts, sep) == s
    decreases |s|
  {
    match IndexOfByte(s, sep)
    case None => [s]
    case Some(k) =>
      var tail := Split(s[k + 1..], sep);
      assert ([s[..k]] + tail)[1..] == tail;
      assert s == s[..k] + [sep] + s[k + 1..];
      [s[..k]] + tail
  }

  /** The pieces glued back together with `sep` between neighbours. */
  function Join(parts: seq<Bytes>, sep: Byte): Bytes
    requires |parts| >= 1
  {
    if |parts| == 1 then parts[0] else parts[0] + [sep] + Join(parts[1..], sep)
  }

  /** Splitting undoes joining when no piece holds the separator, so a
      line's fields are determined by the line. */
  lemma {:induction false} SplitJoin(parts: seq<Bytes>, sep: Byte)
    requires |parts| >= 1
    requires forall i :: 0 <= i < |parts| ==> sep !in parts[i]
    ensures Split(Join(parts, sep), sep) == parts
    decreases |parts|
  {
    var s := Join(parts, sep);
    if |parts| == 1 {
      assert IndexOfByte(s, sep) == None;
    } else {
      var k := |parts[0]|;
      var tail := Join(parts[1..], sep);
      assert s[..k] == parts[0] && s[k] == sep && s[k + 1..] == tail by {
        assert s == parts[0] + ([sep] + tail);
      }
      assert IndexOfByte(s, sep) == Some(k) by {
        IndexOfByteIs(s, sep, k);
      }
      assert Split(tail, sep) == parts[1..] by {
        SplitJoin(parts[1..], sep);
      }
      assert Split(s, sep) == [s[..k]] + Split(s[k + 1..], sep);
      assert parts == [parts[0]] + parts[1..];
    }
  }

  /** `IndexOfByte` finds exactly the first occurrence. */
  lemma IndexOfByteIs(s: Bytes, b: Byte, k: nat)
    requires k < |s| && s[k] == b && b !in s[..k]
    ensures IndexOfByte(s, b) == Some(k)
  {
    assert s[k] == b;
  }

  /** `Split` yields one more piece than there are separators. */
  lemma {:induction false} SplitCount(s: Bytes, sep: Byte)
    ensures |Split(s, sep)| == Count(s, sep) + 1
    decreases |s|
  {
    match IndexOfByte(s, sep)
    case None =>
      NoByteCount(s, sep);
    case Some(k) =>
      SplitCount(s[k + 1..], sep);
      CountAppend(s[..k], [sep] + s[k + 1..], sep);
      CountAppend([sep], s[k + 1..], sep);
      NoByteCount(s[..k], sep);
      assert s == s[..k] + ([sep] + s[k + 1..]);
  }

  lemma {:induction false} NoByteCount(s: Bytes, b: Byte)
    requires b !in s
    ensures Count(s, b) == 0
    decreases |s|
  {
    if |s| > 0 {
      NoByteCount(s[1..], b);
    }
  }

  lemma {:induction false} CountAppend(a: Bytes, c: Bytes, b: Byte)
    ensures Count(a + c, b) == Count(a, b) + Count(c, b)
    decreases |a|
  {
    if |a| > 0 {
      assert (a + c)[0] == a[0];
      assert (a + c)[1..] == a[1..] + c;
      CountAppend(a[1..], c, b);
    } else {
      assert a + c == c;
    }
  }

  /** The ASCII white space that Go's `bytes.TrimSpace` strips:
      tab, line feed, vertical tab, form feed, carriage return, space. */
  predicate IsSpace(b: Byte) {
    b == '\t' || b == '\n' || b as int == 11 || b as int == 12 || b == '\r' || b == ' '
  }

  predicate AllSpace(s: Bytes) {
    forall i :: 0 <= i < |s| ==> IsSpace(s[i])
  }

  /** Neither end of `s` is white space. */
  predicate IsTrimmed(s: Bytes) {
    |s| == 0 || (!IsSpace(s[0]) && !IsSpace(s[|s| - 1]))
  }

  function TrimLeft(s: Bytes): (r: Bytes)
    ensures |r| <= |s| && r == s[|s| - |r|..]
    ensures AllSpace(s[..|s| - |r|])
    ensures |r| > 0 ==> !IsSpace(r[0])
  {
    if |s| > 0 && IsSpace(s[0]) then TrimLeft(s[1..]) else s
  }

  function TrimRight(s: Bytes): (r: Bytes)
    ensures |r| <= |s| && r == s[..|r|]
    ensures AllSpace(s[|r|..])
    ensures |r| > 0 ==> !IsSpace(r[|r| - 1])
  {
    if |s| > 0 && IsSpace(s[|s| - 1]) then TrimRight(s[..|s| - 1]) else s
  }

  /** `bytes.TrimSpace` over ASCII white space: the middle of `s` once the
      white space at both ends is gone. */
  function TrimSpace(s: Bytes): (r: Bytes)
    ensures IsTrimmed(r)
    ensures |r| <= |s|
  {
    TrimRight(TrimLeft(s))
  }

  /** What `TrimSpace` removes is white space from the two ends and nothing
      else: the result is a contiguous piece of `s` with only white space
      around it. */
  lemma TrimSpaceSplits(s: Bytes)
    ensures var r := TrimSpace(s);
      exists i :: 0 <= i <= |s| - |r| && s[i..i + |r|] == r && AllSpace(s[..i]) && AllSpace(s[i + |r|..])
  {
    var l := TrimLeft(s);
    var r := TrimRight(l);
    assert TrimSpace(s) == r;
    CoreAt(s, l, r);
  }

  /** A suffix `l` of `s` after white space, and a prefix `r` of `l`
      before white space: `r` sits in `s` with white space around it. */
  lemma CoreAt(s: Bytes, l: Bytes, r: Bytes)
    requires |l| <= |s| && l == s[|s| - |l|..] && AllSpace(s[..|s| - |l|])
    requires |r| <= |l| && r == l[..|r|] && AllSpace(l[|r|..])
    ensures var i := |s| - |l|;
      && s[i..i + |r|] == r && AllSpace(s[..i]) && AllSpace(s[i + |r|..])
  {
    var i := |s| - |l|;
    assert s[i..i + |r|] == r;
    assert s[i + |r|..] == l[|r|..];
  }

  /** The white space around a trimmed core is exactly what `TrimSpace`
      removes. */
  lemma TrimSpaceOf(a: Bytes, m: Bytes, b: Bytes)
    requires AllSpace(a) && AllSpace(b) && IsTrimmed(m)
    ensures TrimSpace(a + m + b) == m
  {
    var x := a + m + b;
    if |m| == 0 {
      assert x == (a + b) + [];
      assert AllSpace(a + b);
      TrimLeftOf(a + b, []);
      assert TrimLeft(x) == [];
    } else {
      assert x == a + (m + b);
      assert !IsSpace((m + b)[0]);
      TrimLeftOf(a, m + b);
      assert TrimLeft(x) == m + b;
      TrimRightOf(m, b);
    }
  }

  lemma {:induction false} TrimLeftOf(a: Bytes, c: Bytes)
    requires AllSpace(a)
    requires |c| > 0 ==> !IsSpace(c[0])
    ensures TrimLeft(a + c) == (if AllSpace(c) then [] else c)
    decreases |a|
  {
    if |a| > 0 {
      assert (a + c)[1..] == a[1..] + c;
      TrimLeftOf(a[1..], c);
    } else {
      assert a + c == c;
      if |c| > 0 {
        assert !AllSpace(c);
      } else {
        assert TrimLeft(c) == [];
      }
    }
  }

  lemma {:induction false} TrimRightOf(c: Bytes, b: Bytes)
    requires AllSpace(b)
    requires |c| > 0 && !IsSpace(c[|c| - 1])
    ensures TrimRight(c + b) == c
    decreases |b|
  {
    if |b| > 0 {
      assert (c + b)[..|c + b| - 1] == c + b[..|b| - 1];
      TrimRightOf(c, b[..|b| - 1]);
    } else {
      assert c + b == c;
    }
  }

  predicate IsUpper(b: Byte) {
    'A' <= b <= 'Z'
  }

  /** ASCII lower-casing of one byte; every other byte is left alone. */
  function LowerByte(b: Byte): Byte {
    if IsUpper(b) then (b as int + 32) as char else b
  }

  /** ASCII lower-casing of a byte string, byte for byte. */
  function ToLower(s: Bytes): (r: Bytes)
    ensures |r| == |s|
    ensures forall i :: 0 <= i < |s| ==> r[i] == LowerByte(s[i])
  {
    if |s| == 0 then [] else [LowerByte(s[0])] + ToLower(s[1..])
  }

  /** Lower-casing leaves no upper-case letter behind and is idempotent. */
  lemma ToLowerNormalises(s: Bytes)
    ensures forall i :: 0 <= i < |s| ==> !IsUpper(ToLower(s)[i])
    ensures ToLower(ToLower(s)) == ToLower(s)
  {
  }

  /** A string with no upper-case letter is its own lower-case form. */
  lemma ToLowerOfLower(s: Bytes)
    requires forall i :: 0 <= i < |s| ==> !IsUpper(s[i])
    ensures ToLower(s) == s
  {
  }
}
