/**
 * The line-framing step of the Redis Serialization Protocol (RESP):
 * `Parser::parse_until_crlf` and the value and error types of the decoder.
 */
module Parser {
  import opened Wrappers
  import opened Text

  /** A decoded RESP value. */
  datatype RespOutput =
    | SimpleString(s: Bytes)
    | Error(s: Bytes)
    | BulkString(s: Bytes)
    | Integer(n: i64)
    | Array(items: seq<RespOutput>)

  /** The decoder's errors, with `InvalidInput` from the revision that `lib.rs` uses. */
  datatype ParseError = UnrecognisedSymbol | CRLFNotFound | IncompleteInput | InvalidInput

  /** A CR immediately followed by an LF starts at index `i` of `s`. */
  predicate CrlfAt(s: Bytes, i: int) {
    0 <= i && i + 1 < |s| && s[i] == CR && s[i + 1] == LF
  }

  predicate HasCrlf(s: Bytes) {
    exists i :: 0 <= i < |s| && CrlfAt(s, i)
  }

  /** The first index at or after `from` where a CR-LF pair starts, if any. */
  function FindCrlfFrom(s: Bytes, from: nat): (r: Option<nat>)
    requires from <= |s|
    ensures r.Some? ==> from <= r.value && CrlfAt(s, r.value)
    ensures r.Some? ==> forall j :: from <= j < r.value ==> !CrlfAt(s, j)
    ensures r.None? ==> forall j :: from <= j ==> !CrlfAt(s, j)
    decreases |s| - from
  {
    if from + 1 >= |s| then None
    else if s[from] == CR && s[from + 1] == LF then Some(from)
    else FindCrlfFrom(s, from + 1)
  }

  /**
   * The specification of the splitter: the bytes before the first CR-LF and
   * the bytes after it, or `CRLFNotFound` when there is no CR-LF at all.
   */
  function SplitAtFirstCrlf(s: Bytes): (r: Result<(Bytes, Bytes), ParseError>)
    ensures r.Failure? <==> !HasCrlf(s)
    ensures r.Failure? ==> r.error == CRLFNotFound
    ensures r.Success? ==> s == r.value.0 + [CR, LF] + r.value.1
    ensures r.Success? ==> |r.value.1| == |s| - |r.value.0| - 2
    ensures r.Success? ==> forall j :: 0 <= j < |r.value.0| ==> !CrlfAt(s, j)
  {
    match FindCrlfFrom(s, 0)
    case Some(i) =>
      assert s == s[..i] + [CR, LF] + s[i + 2..];
      Success((s[..i], s[i + 2..]))
    case None => Failure(CRLFNotFound)
  }

  /**
   * `Parser::parse_until_crlf`: scans indices `0 .. len - 1` for a CR whose
   * next byte is LF. Empty input is excluded because `input.len() - 1`
   * underflows there.
   */
  method ParseUntilCrlf(input: Bytes) returns (r: Result<(Bytes, Bytes), ParseError>)
    requires |input| >= 1
    ensures r == SplitAtFirstCrlf(input)
  {
    for i := 0 to |input| - 1
      invariant forall j :: 0 <= j < i ==> !CrlfAt(input, j)
    {
      if input[i] == CR && input[i + 1] == LF {
        FirstCrlfDeterminesSplit(input, i);
        return Success((input[0..i], input[i + 2..]));
      }
    }
    return Failure(CRLFNotFound);
  }

  /** Whatever the scan order, a CR-LF at `k` with none before it is where the split happens. */
  lemma FirstCrlfDeterminesSplit(s: Bytes, k: nat)
    requires CrlfAt(s, k)
    requires forall j :: 0 <= j < k ==> !CrlfAt(s, j)
    ensures SplitAtFirstCrlf(s) == Success((s[..k], s[k + 2..]))
  {
    var f := FindCrlfFrom(s, 0);
    assert f.Some?;
    assert f.value == k;
  }

  /**
   * A frame `s ++ CRLF ++ rest` whose first part has no CR-LF splits back
   * into exactly `s` and `rest`.
   */
  lemma SplitFramed(s: Bytes, rest: Bytes)
    requires !HasCrlf(s)
    ensures SplitAtFirstCrlf(s + [CR, LF] + rest) == Success((s, rest))
  {
    var t := s + [CR, LF] + rest;
    assert CrlfAt(t, |s|);
    forall j | 0 <= j < |s|
      ensures !CrlfAt(t, j)
    {
      if j + 1 < |s| {
        assert !CrlfAt(s, j);
      }
    }
    FirstCrlfDeterminesSplit(t, |s|);
    assert t[..|s|] == s;
    assert t[|s| + 2..] == rest;
  }

  /** Bytes without any CR cannot contain a CR-LF pair. */
  lemma NoCrNoCrlf(s: Bytes)
    requires CR !in s
    ensures !HasCrlf(s)
  {
    forall i | 0 <= i < |s|
      ensures s[i] != CR
    {
      assert s[i] in s;
    }
  }

  /** The first success case of the unit tests at parser.rs:73-100. */
  method ParseLineExample() returns (line: Result<(Bytes, Bytes), ParseError>)
    ensures line == Success(("hello world", []))
  {
    NoCrNoCrlf("hello world");
    SplitFramed("hello world", []);
    assert "hello world\r\n" == "hello world" + [CR, LF] + [];
    line := ParseUntilCrlf("hello world\r\n");
  }

  /** The second success case of the unit tests at parser.rs:73-100: only the first CRLF splits. */
  method ParseLengthLineExample() returns (lengthLine: Result<(Bytes, Bytes), ParseError>)
    ensures lengthLine == Success(("5", "hello\r\n"))
  {
    NoCrNoCrlf("5");
    SplitFramed("5", "hello\r\n");
    assert "5\r\nhello\r\n" == "5" + [CR, LF] + "hello\r\n";
    lengthLine := ParseUntilCrlf("5\r\nhello\r\n");
  }

  /** The failure case of the unit tests at parser.rs:73-100. */
  method ParseUnterminatedExample() returns (unterminated: Result<(Bytes, Bytes), ParseError>)
    ensures unterminated == Failure(CRLFNotFound)
  {
    unterminated := ParseUntilCrlf("hello world");
  }
}
