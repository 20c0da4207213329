/**
 * The reply encoder of `response_helper.rs`: the bytes that
 * `send_simple_string_response`, `send_pong_response` and
 * `send_bulk_string_response` hand to `stream.write`.
 */
module ResponseHelper {
  import opened Wrappers
  import opened Text
  import opened Parser

  /** `format_string_response`: a RESP simple string, `+s\r\n`. */
  function FormatStringResponse(s: Bytes): Bytes {
    ['+'] + s + [CR, LF]
  }

  /** The bytes `send_pong_response` writes. */
  function PongResponse(): Bytes {
    FormatStringResponse("PONG")
  }

  /** The bytes `send_bulk_string_response` writes: `$`, the byte length in decimal, CRLF, the data, CRLF. */
  function BulkStringResponse(data: Bytes): Bytes {
    ['$'] + Decimal(|data|) + [CR, LF] + data + [CR, LF]
  }

  /** The pong reply is exactly `+PONG\r\n`. */
  lemma PongBytes()
    ensures PongResponse() == "+PONG\r\n"
  {
  }

  /**
   * A simple-string reply carries its text intact: after the `+` tag, the
   * line splitter returns the text and nothing after it.
   */
  lemma SimpleStringRoundTrip(s: Bytes)
    requires !HasCrlf(s)
    ensures FormatStringResponse(s)[0] == '+'
    ensures SplitAtFirstCrlf(FormatStringResponse(s)[1..]) == Success((s, []))
  {
    assert FormatStringResponse(s)[1..] == s + [CR, LF] + [];
    SplitFramed(s, []);
  }

  /**
   * A bulk-string reply carries its length and its data intact: after the
   * `$` tag, the first split gives the decimal length (which reads back as
   * `|data|`), and splitting the rest gives the data with nothing left.
   */
  lemma BulkStringRoundTrip(data: Bytes)
    requires !HasCrlf(data)
    ensures BulkStringResponse(data)[0] == '$'
    ensures
      var first := SplitAtFirstCrlf(BulkStringResponse(data)[1..]);
      && first.Success?
      && AllDigits(first.value.0)
      && DecimalValue(first.value.0) == |data|
      && SplitAtFirstCrlf(first.value.1) == Success((data, []))
  {
    var len := Decimal(|data|);
    NoCrNoCrlf(len);
    assert BulkStringResponse(data)[1..] == len + [CR, LF] + (data + [CR, LF]);
    SplitFramed(len, data + [CR, LF]);
    DecimalRoundTrip(|data|);
    assert data + [CR, LF] == data + [CR, LF] + [];
    SplitFramed(data, []);
  }

  /** The first reply of the bulk-string test in tests/response_helper.rs. */
  lemma BulkStringExample()
    ensures BulkStringResponse("hello") == "$5\r\nhello\r\n"
  {
    assert Decimal(5) == "5";
  }

  /** The echo reply expected by the connection test at tests/lib_test.rs:63: a two-digit length. */
  lemma BulkStringTwoDigitExample()
    ensures BulkStringResponse("helloworld") == "$10\r\nhelloworld\r\n"
  {
    assert Decimal(10) == Decimal(1) + [DigitChar(0)] == "10";
  }
}
