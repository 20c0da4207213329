/**
 * `lib.rs`: the application errors, the mapping of decoder errors onto
 * them, what the connection loop does with each error, one step of the
 * loop, and the conversion of a decoded RESP array into a `ParsedCommand`.
 */
module Connection {
  import opened Wrappers
  import opened Text
  import opened Commands
  import opened ParsedCommands
  import opened ClientInputs
  import Parser

  // ---------------------------------------------------------------------
  // Errors
  // ---------------------------------------------------------------------

  /** `AppError`: every variant carries a message. */
  datatype AppError =
    | ConnectionClosed(msg: Bytes)
    | ParseError(msg: Bytes)
    | IncompleteInput(msg: Bytes)
    | Error(msg: Bytes)

  /**
   * `From<ParseError> for AppError`: only an incomplete input stays
   * "incomplete"; every other decoder error, a missing CR-LF included, is a
   * parse error with a fixed message.
   */
  function FromParseError(e: Parser.ParseError): (r: AppError)
    ensures r.IncompleteInput? <==> e == Parser.IncompleteInput
    ensures r.ParseError? <==> e != Parser.IncompleteInput
    ensures e == Parser.InvalidInput ==> r.msg == "Invalid input"
    ensures e == Parser.CRLFNotFound ==> r.msg == "CRLF is not found"
    ensures e == Parser.UnrecognisedSymbol ==> r.msg == "Unrecognised symbol"
    ensures e == Parser.IncompleteInput ==> r.msg == "Incomplete input"
  {
    match e
    case InvalidInput => ParseError("Invalid input")
    case CRLFNotFound => ParseError("CRLF is not found")
    case UnrecognisedSymbol => ParseError("Unrecognised symbol")
    case IncompleteInput => IncompleteInput("Incomplete input")
  }

  /** Distinct decoder errors become distinct application errors, so no information is lost. */
  lemma FromParseErrorInjective(a: Parser.ParseError, b: Parser.ParseError)
    ensures FromParseError(a) == FromParseError(b) ==> a == b
  {
    assert "Invalid input"[0] == 'I';
    assert "CRLF is not found"[0] == 'C';
    assert "Unrecognised symbol"[0] == 'U';
  }

  // ---------------------------------------------------------------------
  // The connection loop
  // ---------------------------------------------------------------------

  /** What `handle_connection` does after a failed step. */
  datatype LoopAction =
    | Continue                           // wait for more input
    | RespondErrorAndStop(message: Bytes) // `respond_error` with the message, then leave the loop
    | Stop                               // leave the loop silently

  /** The error handling of `handle_connection`. */
  function Classify(e: AppError): (a: LoopAction)
    ensures a == Continue <==> e.IncompleteInput?
    ensures a.RespondErrorAndStop? <==> e.ParseError? || e.Error?
    ensures a.RespondErrorAndStop? ==> a.message == e.msg
    ensures a == Stop <==> e.ConnectionClosed?
  {
    match e
    case IncompleteInput(_) => Continue
    case ParseError(m) => RespondErrorAndStop(m)
    case Error(m) => RespondErrorAndStop(m)
    case ConnectionClosed(_) => Stop
  }

  /**
   * Of the decoder's errors only an incomplete input keeps the connection
   * open; every other one is answered with its message and closes it.
   */
  lemma DecoderErrorOutcome(e: Parser.ParseError)
    ensures Classify(FromParseError(e)) == Continue <==> e == Parser.IncompleteInput
    ensures e != Parser.IncompleteInput ==>
      Classify(FromParseError(e)) == RespondErrorAndStop(FromParseError(e).msg)
    ensures Classify(FromParseError(Parser.CRLFNotFound)) == RespondErrorAndStop("CRLF is not found")
  {
  }

  /** What one `stream.read` into the buffer produced. */
  datatype ReadOutcome =
    | Read(bytes: Bytes)        // `Ok(size)`: the first `size` bytes of the buffer
    | ReadFailed(message: Bytes) // `Err(e)`, with `e.to_string()`

  /**
   * `handle_connection_helper`, with the stream replaced by the outcome of
   * its read and the (not shown) RESP decoder by its result on the session
   * buffer. A zero-byte read closes the connection and a failed read is an
   * error, both leaving the buffer alone. Otherwise the bytes join the
   * buffer; a decoder failure returns at once, keeping the buffer for the
   * next read; a success yields the command handed to `respond`, after
   * which the buffer is reset.
   */
  method ConnectionStep(client: ClientInput, read: ReadOutcome, decoded: Result<Parser.RespOutput, Parser.ParseError>)
      returns (r: Result<ParsedCommand, AppError>)
    requires decoded.Success? && decoded.value.Array? ==> decoded.value.items != []
    modifies client
    ensures read.ReadFailed? ==> r == Failure(Error(read.message)) && client.input == old(client.input)
    ensures read == Read([]) ==> r == Failure(ConnectionClosed("Connection closed")) && client.input == old(client.input)
    ensures read.Read? && read.bytes != [] && decoded.Failure? ==>
      && r == Failure(FromParseError(decoded.error))
      && client.input == old(client.input) + StripNul(read.bytes)
    ensures read.Read? && read.bytes != [] && decoded.Success? ==>
      && r.Success? && fresh(r.value)
      && r.value.Command() == VerbOf(decoded.value)
      && r.value.ArgList() == ArgsOf(decoded.value)
      && client.input == []
  {
    match read
    case ReadFailed(message) =>
      return Failure(Error(message));
    case Read(bytes) =>
      if |bytes| == 0 {
        return Failure(ConnectionClosed("Connection closed"));
      }
      client.AppendInput(bytes);
      if decoded.Failure? {
        return Failure(FromParseError(decoded.error));
      }
      var parsedCommand := RespOutputToParsedCommand(decoded.value);
      client.Reset();
      return Success(parsedCommand);
  }

  /** The step's failures, classified: only an incomplete decode lets the loop read again. */
  lemma StepFailureOutcome(read: ReadOutcome, decoded: Result<Parser.RespOutput, Parser.ParseError>)
    ensures read.ReadFailed? ==> Classify(Error(read.message)) == RespondErrorAndStop(read.message)
    ensures Classify(ConnectionClosed("Connection closed")) == Stop
    ensures decoded.Failure? ==>
      (Classify(FromParseError(decoded.error)) == Continue <==> decoded.error == Parser.IncompleteInput)
  {
    if decoded.Failure? {
      DecoderErrorOutcome(decoded.error);
    }
  }

  // ---------------------------------------------------------------------
  // resp_output_to_parsed_command
  // ---------------------------------------------------------------------

  /**
   * The verb of a decoded request: the first element of an array, when it is
   * a bulk string spelling `ping`, `echo`, `get` or `set` in any case.
   */
  function VerbOf(out: Parser.RespOutput): (r: Option<Command>)
    ensures r.Some? ==> out.Array? && out.items != [] && out.items[0].BulkString?
    ensures r == Some(Set) <==>
      out.Array? && out.items != [] && out.items[0].BulkString? && ToLower(out.items[0].s) == "set"
    ensures out.Array? && out.items != [] && out.items[0].BulkString? && From(out.items[0].s).Some? ==>
      r == From(out.items[0].s)
    ensures out.Array? && out.items != [] && out.items[0].BulkString? && From(out.items[0].s).None? ==>
      r == None || r == Some(Set)
  {
    if out.Array? && out.items != [] && out.items[0].BulkString? then
      var lower := ToLower(out.items[0].s);
      if lower == "ping" then Some(Ping)
      else if lower == "echo" then Some(Echo)
      else if lower == "get" then Some(Get)
      else if lower == "set" then Some(Set)
      else None
    else None
  }

  /** The payloads of the bulk strings among `xs`, in order; other kinds of element are skipped. */
  function BulkPayloads(xs: seq<Parser.RespOutput>): (r: seq<Bytes>)
    ensures |r| <= |xs|
    ensures forall p :: p in r ==> Parser.RespOutput.BulkString(p) in xs
    decreases |xs|
  {
    if xs == [] then []
    else
      var last := xs[|xs| - 1];
      BulkPayloads(xs[..|xs| - 1]) + (if last.BulkString? then [last.s] else [])
  }

  /** Skipping the non-bulk elements distributes over concatenation. */
  lemma {:induction false} BulkPayloadsAppend(xs: seq<Parser.RespOutput>, ys: seq<Parser.RespOutput>)
    ensures BulkPayloads(xs + ys) == BulkPayloads(xs) + BulkPayloads(ys)
    decreases |ys|
  {
    if ys == [] {
      assert xs + ys == xs;
    } else {
      var init := ys[..|ys| - 1];
      assert (xs + ys)[..|xs + ys| - 1] == xs + init;
      BulkPayloadsAppend(xs, init);
    }
  }

  /** An array of bulk strings keeps every payload, in order. */
  lemma {:induction false} BulkPayloadsOfBulkStrings(xs: seq<Parser.RespOutput>)
    requires forall i :: 0 <= i < |xs| ==> xs[i].BulkString?
    ensures |BulkPayloads(xs)| == |xs|
    ensures forall i :: 0 <= i < |xs| ==> BulkPayloads(xs)[i] == xs[i].s
    decreases |xs|
  {
    if xs != [] {
      var init := xs[..|xs| - 1];
      BulkPayloadsOfBulkStrings(init);
      assert BulkPayloads(xs) == BulkPayloads(init) + [xs[|xs| - 1].s];
    }
  }

  /** The arguments of a decoded request: the bulk strings after the first element of an array. */
  function ArgsOf(out: Parser.RespOutput): (r: seq<Bytes>)
    ensures r != [] ==> out.Array? && |out.items| >= 2
    ensures forall p :: p in r ==> out.Array? && Parser.RespOutput.BulkString(p) in out.items[1..]
  {
    if out.Array? && out.items != [] then BulkPayloads(out.items[1..]) else []
  }

  /**
   * `resp_output_to_parsed_command`: anything but an array gives an empty
   * command; an array gives the verb of its first element and, as
   * arguments, the bulk strings after it, collected even when the verb is
   * not recognised. The count is never set. An empty array is excluded
   * because `arr[0]` panics there.
   */
  method RespOutputToParsedCommand(out: Parser.RespOutput) returns (p: ParsedCommand)
    requires out.Array? ==> out.items != []
    ensures fresh(p)
    ensures p.NumArgsInInput() == None
    ensures p.Command() == VerbOf(out)
    ensures p.ArgList() == ArgsOf(out)
    ensures p.Args().Some? <==> ArgsOf(out) != []
  {
    p := new ParsedCommand();
    if out.Array? {
      var arr := out.items;
      var commandResp := arr[0];
      var argsResp := arr[1..];
      if commandResp.BulkString? {
        var command := commandResp.s;
        if ToLower(command) == "ping" {
          p.SetCommand(Some(Ping));
        } else if ToLower(command) == "echo" {
          p.SetCommand(Some(Echo));
        } else if ToLower(command) == "get" {
          p.SetCommand(Some(Get));
        } else if ToLower(command) == "set" {
          p.SetCommand(Some(Set));
        }
      }
      for i := 0 to |argsResp|
        invariant fresh(p)
        invariant p.NumArgsInInput() == None && p.Command() == VerbOf(out)
        invariant p.ArgList() == BulkPayloads(argsResp[..i])
        invariant p.Args().Some? <==> BulkPayloads(argsResp[..i]) != []
      {
        assert argsResp[..i + 1][..i] == argsResp[..i];
        if argsResp[i].BulkString? {
          p.AppendArg(argsResp[i].s);
        }
      }
      assert argsResp[..|argsResp|] == argsResp;
    }
  }

  /** A request made of a bulk-string verb and bulk-string arguments has those arguments, in order. */
  lemma BulkRequestArgs(verb: Bytes, args: seq<Bytes>)
    ensures ArgsOf(Parser.Array([Parser.BulkString(verb)] + Bulks(args))) == args
  {
    var items := [Parser.BulkString(verb)] + Bulks(args);
    assert items[1..] == Bulks(args);
    BulkPayloadsOfBulkStrings(Bulks(args));
  }

  /** Each payload wrapped as a bulk string. */
  function Bulks(args: seq<Bytes>): (r: seq<Parser.RespOutput>)
    ensures |r| == |args|
    ensures forall i :: 0 <= i < |r| ==> r[i] == Parser.BulkString(args[i])
  {
    seq(|args|, i requires 0 <= i < |args| => Parser.BulkString(args[i]))
  }

  /** The ping case of the test at lib.rs:122-179. */
  method PingExample() returns (ping: ParsedCommand)
    ensures ping.Command() == Some(Ping) && ping.ArgList() == []
  {
    assert ToLower("ping") == "ping";
    BulkRequestArgs("ping", []);
    ping := RespOutputToParsedCommand(Parser.Array([Parser.BulkString("ping")] + Bulks([])));
  }

  /** The echo case of the test at lib.rs:122-179. */
  method EchoExample() returns (echo: ParsedCommand)
    ensures echo.Command() == Some(Echo) && echo.ArgList() == ["hello"]
  {
    assert ToLower("echo") == "echo";
    BulkRequestArgs("echo", ["hello"]);
    echo := RespOutputToParsedCommand(Parser.Array([Parser.BulkString("echo")] + Bulks(["hello"])));
  }

  /** The set case of the test at lib.rs:122-179. */
  method SetExample() returns (setCmd: ParsedCommand)
    ensures setCmd.Command() == Some(Set) && setCmd.ArgList() == ["hello", "world"]
  {
    assert ToLower("set") == "set";
    BulkRequestArgs("set", ["hello", "world"]);
    setCmd := RespOutputToParsedCommand(Parser.Array([Parser.BulkString("set")] + Bulks(["hello", "world"])));
  }

  /** The get case of the test at lib.rs:122-179. */
  method GetExample() returns (getCmd: ParsedCommand)
    ensures getCmd.Command() == Some(Get) && getCmd.ArgList() == ["hello"]
  {
    assert ToLower("get") == "get";
    BulkRequestArgs("get", ["hello"]);
    getCmd := RespOutputToParsedCommand(Parser.Array([Parser.BulkString("get")] + Bulks(["hello"])));
  }
}
