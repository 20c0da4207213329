/**
 * `client_input.rs`: the per-connection input buffer and the legacy
 * text parser that reads a request such as `*2\r\n$4\r\necho\r\n$5\r\nhello\r\n`
 * (where `\r\n` may be the four characters backslash, r, backslash, n).
 */
module ClientInputs {
  import opened Wrappers
  import opened Text
  import opened Commands
  import opened ParsedCommands

  /** The four characters `\r\n` as written out in text, not CR and LF. */
  const EscapedCrlf: Bytes := "\\r\\n"

  /**
   * `replace("\0", "")`: the read buffer's zero padding removed. No NUL is
   * left, the text never grows, and NUL-free text is kept as it is.
   */
  function StripNul(s: Bytes): (r: Bytes)
    ensures NUL !in r
    ensures |r| <= |s|
    ensures NUL !in s ==> r == s
  {
    RemoveCharSpec(s, NUL);
    Replace(s, [NUL], [])
  }

  // ---------------------------------------------------------------------
  // The tokenizer of `parse`
  // ---------------------------------------------------------------------

  /**
   * `filter(|s| !s.is_empty())`: the non-empty pieces are kept and only they
   * are; nothing is left exactly when every piece is empty.
   */
  function NonEmpty(pieces: seq<Bytes>): (r: seq<Bytes>)
    ensures |r| <= |pieces|
    ensures forall i :: 0 <= i < |r| ==> r[i] != []
    ensures forall p :: p in r <==> p in pieces && p != []
    ensures r == [] <==> forall i :: 0 <= i < |pieces| ==> pieces[i] == []
    decreases |pieces|
  {
    if pieces == [] then []
    else if pieces[0] == [] then NonEmpty(pieces[1..])
    else [pieces[0]] + NonEmpty(pieces[1..])
  }

  /** The filter keeps order: filtering two runs of pieces one after the other is filtering their concatenation. */
  lemma {:induction false} NonEmptyAppend(a: seq<Bytes>, b: seq<Bytes>)
    ensures NonEmpty(a + b) == NonEmpty(a) + NonEmpty(b)
    decreases |a|
  {
    if a == [] {
      assert a + b == b;
    } else {
      assert (a + b)[0] == a[0];
      assert (a + b)[1..] == a[1..] + b;
      NonEmptyAppend(a[1..], b);
    }
  }

  /** `map(|s| s.trim())`. */
  function TrimAll(pieces: seq<Bytes>): (r: seq<Bytes>)
    ensures |r| == |pieces|
    ensures forall i :: 0 <= i < |r| ==> r[i] == Trim(pieces[i])
  {
    seq(|pieces|, i requires 0 <= i < |pieces| => Trim(pieces[i]))
  }

  /**
   * The lines of the input: escaped CR-LFs turned into newlines, the text
   * split on newlines, empty pieces dropped and the rest trimmed.
   */
  function Pieces(input: Bytes): (r: seq<Bytes>)
    ensures forall i :: 0 <= i < |r| && r[i] != [] ==> !IsWhitespace(r[i][0]) && !IsWhitespace(r[i][|r[i]| - 1])
  {
    TrimAll(NonEmpty(SplitOn(Replace(input, EscapedCrlf, [LF]), LF)))
  }

  /** `skip(n)`: all but the first `n` elements, in order; nothing when there are no more than `n`. */
  function Skip(xs: seq<Bytes>, n: nat): (r: seq<Bytes>)
    ensures |r| == if n < |xs| then |xs| - n else 0
    ensures forall j :: 0 <= j < |r| ==> r[j] == xs[n + j]
  {
    if |xs| <= n then [] else xs[n..]
  }

  /** `step_by(2)`: the elements at indices 0, 2, 4, …; it only ever keeps elements of its input. */
  function EveryOther(xs: seq<Bytes>): (r: seq<Bytes>)
    ensures |r| <= |xs|
    ensures forall t :: t in r ==> t in xs
    decreases |xs|
  {
    if xs == [] then [] else [xs[0]] + EveryOther(if |xs| >= 2 then xs[2..] else [])
  }

  /** `step_by(2)` keeps half the elements, rounded up, and element `j` is the input's element `2j`. */
  lemma {:induction false} EveryOtherSpec(xs: seq<Bytes>)
    ensures |EveryOther(xs)| == (|xs| + 1) / 2
    ensures forall j :: 0 <= j < |EveryOther(xs)| ==> EveryOther(xs)[j] == xs[2 * j]
    decreases |xs|
  {
    if xs != [] {
      var tail := if |xs| >= 2 then xs[2..] else [];
      EveryOtherSpec(tail);
      var r := EveryOther(xs);
      assert r == [xs[0]] + EveryOther(tail);
      forall j | 1 <= j < |r|
        ensures r[j] == xs[2 * j]
      {
        assert r[j] == EveryOther(tail)[j - 1] == tail[2 * (j - 1)];
      }
    }
  }

  /**
   * The tokens `parse` keeps: the pieces at positions 2, 4, 6, …, which for a
   * well-formed request are the verb and its arguments (the `$` length
   * lines in between are skipped and never checked).
   */
  function Tokens(input: Bytes): (r: seq<Bytes>)
    ensures forall t :: t in r ==> t in Pieces(input)
  {
    EveryOther(Skip(Pieces(input), 2))
  }

  /** Token `j` is piece `2 + 2j`, and there are `(|pieces| - 1) / 2` tokens when more than two pieces exist. */
  lemma TokensSpec(input: Bytes)
    ensures var p := Pieces(input);
      && |Tokens(input)| == (if |p| <= 2 then 0 else (|p| - 1) / 2)
      && forall j :: 0 <= j < |Tokens(input)| ==> Tokens(input)[j] == p[2 + 2 * j]
  {
    EveryOtherSpec(Skip(Pieces(input), 2));
  }

  // ---------------------------------------------------------------------
  // parse
  // ---------------------------------------------------------------------

  /** The digit after `*`, read by `input[1..2].parse::<u8>()`: printing the count gives that digit back. */
  function ArgCount(input: Bytes): (r: u8)
    requires |input| >= 2 && IsDigit(input[1])
    ensures Decimal(r as int) == input[1..2]
  {
    DigitValue(input[1]) as u8
  }

  /** The verbs `parse` recognises, in any letter case: only `echo` and `ping`. */
  function LegacyVerb(s: Bytes): (r: Option<Command>)
    ensures r == Some(Echo) <==> ToLower(s) == "echo"
    ensures r == Some(Ping) <==> ToLower(s) == "ping"
    ensures r.Some? ==> r == Some(Echo) || r == Some(Ping)
  {
    var lower := ToLower(s);
    if lower == "echo" then Some(Echo) else if lower == "ping" then Some(Ping) else None
  }

  /**
   * The inputs on which `parse` does not panic: `&input[0..1]` needs a first
   * character of one byte; after a `*`, `input[1..2].parse::<u8>()` needs a
   * one-byte digit; and `remove(0)` needs a token when the count is 0.
   */
  predicate ParseDefinedOn(input: Bytes) {
    && |input| >= 1
    && IsCharBoundary(input, 1)
    && (input[0] == '*' ==>
          && |input| >= 2
          && IsDigit(input[1])
          && IsCharBoundary(input, 2)
          && !(input[1] == '0' && Tokens(input) == []))
  }

  class ClientInput {
    var input: Bytes

    /** `ClientInput::new`: an empty buffer. */
    constructor ()
      ensures input == []
    {
      input := [];
    }

    /** `reset`: the buffer is emptied; on an empty buffer this changes nothing. */
    method Reset()
      modifies this
      ensures input == []
    {
      input := [];
    }

    /** `append_input`: the argument, without its NUL bytes, is added after what is already held. */
    method AppendInput(s: Bytes)
      modifies this
      ensures input == old(input) + StripNul(s)
      ensures NUL !in s ==> input == old(input) + s
      ensures |input| <= |old(input)| + |s|
    {
      RemoveCharSpec(s, NUL);
      input := input + StripNul(s);
    }

    /**
     * `parse`: `None` unless the buffer starts with `*` and the number of
     * tokens, cut to a `u8`, equals the digit after it; otherwise the count,
     * the verb from the first token and the remaining tokens in order.
     * It only reads the buffer.
     */
    method Parse() returns (r: Option<ParsedCommand>)
      requires ParseDefinedOn(input)
      ensures input[0] != '*' ==> r == None
      ensures input[0] == '*' ==> (r.Some? <==> |Tokens(input)| % 0x100 == ArgCount(input) as int)
      ensures r.Some? ==>
        && fresh(r.value)
        && r.value.NumArgsInInput() == Some(ArgCount(input))
        && r.value.Command() == LegacyVerb(Tokens(input)[0])
        && r.value.Args() == Some(Tokens(input)[1..])
    {
      if input[0..1] != "*" {
        return None;
      }
      var numArgs := ArgCount(input);
      var split := Tokens(input);
      if (|split| % 0x100) as u8 == numArgs {
        var commandStr := split[0];
        var rest := split[1..];
        var command: Option<Command> := None;
        if ToLower(commandStr) == "echo" {
          command := Some(Echo);
        } else if ToLower(commandStr) == "ping" {
          command := Some(Ping);
        }
        var parsed := new ParsedCommand();
        parsed.SetArgs(Some(rest));
        parsed.SetNumArgsInInput(Some(numArgs));
        parsed.SetCommand(command);
        return Some(parsed);
      }
      return None;
    }

    /**
     * The buffer handling of `read_input` once `stream.read` has filled
     * `buffer`: the bytes read, NUL padding removed, are appended, and the
     * whole buffer is parsed.
     */
    method ReadInput(buffer: Bytes) returns (r: Option<ParsedCommand>)
      requires ParseDefinedOn(input + StripNul(buffer))
      modifies this
      ensures input == old(input) + StripNul(buffer)
      ensures r.None? <==> input[0] != '*' || |Tokens(input)| % 0x100 != ArgCount(input) as int
      ensures r.Some? ==>
        && fresh(r.value)
        && r.value.NumArgsInInput() == Some(ArgCount(input))
        && r.value.Command() == LegacyVerb(Tokens(input)[0])
        && r.value.Args() == Some(Tokens(input)[1..])
    {
      AppendInput(buffer);
      r := Parse();
    }
  }

  // ---------------------------------------------------------------------
  // The requests of client_input_test.rs
  // ---------------------------------------------------------------------

  /** Lines each followed by an escaped `\r\n`, the shape of the test requests. */
  function EscapedLines(lines: seq<Bytes>): Bytes
    decreases |lines|
  {
    if lines == [] then [] else lines[0] + EscapedCrlf + EscapedLines(lines[1..])
  }

  /** Lines each followed by a newline. */
  function NewlineLines(lines: seq<Bytes>): Bytes
    decreases |lines|
  {
    if lines == [] then [] else lines[0] + [LF] + NewlineLines(lines[1..])
  }

  /** A line that the tokenizer keeps as it is. */
  predicate PlainLine(line: Bytes) {
    && line != []
    && '\\' !in line && LF !in line && NUL !in line
    && !IsWhitespace(line[0]) && !IsWhitespace(line[|line| - 1])
  }

  /** One escaped line: its text is kept and its `\r\n` becomes a newline. */
  lemma ReplaceLine(a: Bytes, t: Bytes)
    requires '\\' !in a
    ensures Replace(a + EscapedCrlf + t, EscapedCrlf, [LF]) == a + [LF] + Replace(t, EscapedCrlf, [LF])
  {
    assert a + EscapedCrlf + t == a + (EscapedCrlf + t);
    ReplaceSkipsPrefix(a, EscapedCrlf + t, EscapedCrlf, [LF]);
    ReplaceAtMatch(t, EscapedCrlf, [LF]);
  }

  lemma {:induction false} ReplaceLines(lines: seq<Bytes>)
    requires forall i :: 0 <= i < |lines| ==> PlainLine(lines[i])
    ensures Replace(EscapedLines(lines), EscapedCrlf, [LF]) == NewlineLines(lines)
    decreases |lines|
  {
    if lines != [] {
      assert PlainLine(lines[0]);
      ReplaceLines(lines[1..]);
      ReplaceLine(lines[0], EscapedLines(lines[1..]));
    }
  }

  lemma {:induction false} SplitLines(lines: seq<Bytes>)
    requires forall i :: 0 <= i < |lines| ==> PlainLine(lines[i])
    ensures SplitOn(NewlineLines(lines), LF) == lines + [[]]
    decreases |lines|
  {
    if lines != [] {
      assert PlainLine(lines[0]);
      SplitLines(lines[1..]);
      SplitOnPrefix(lines[0], NewlineLines(lines[1..]), LF);
      assert lines + [[]] == [lines[0]] + (lines[1..] + [[]]);
    }
  }

  lemma {:induction false} NonEmptyLines(lines: seq<Bytes>)
    requires forall i :: 0 <= i < |lines| ==> PlainLine(lines[i])
    ensures NonEmpty(lines + [[]]) == lines
    decreases |lines|
  {
    if lines == [] {
      assert NonEmpty([[]]) == NonEmpty([]);
    } else {
      assert PlainLine(lines[0]);
      NonEmptyLines(lines[1..]);
      assert (lines + [[]])[1..] == lines[1..] + [[]];
      assert lines == [lines[0]] + lines[1..];
    }
  }

  /**
   * On a request made of plain escaped lines, the pieces are exactly those
   * lines, so the tokens are the lines at positions 2, 4, 6, …
   */
  lemma PiecesOfEscapedLines(lines: seq<Bytes>)
    requires forall i :: 0 <= i < |lines| ==> PlainLine(lines[i])
    ensures Pieces(EscapedLines(lines)) == lines
    ensures Tokens(EscapedLines(lines)) == EveryOther(Skip(lines, 2))
  {
    ReplaceLines(lines);
    SplitLines(lines);
    NonEmptyLines(lines);
    forall i | 0 <= i < |lines|
      ensures Trim(lines[i]) == lines[i]
    {
      assert PlainLine(lines[i]);
    }
  }

  lemma {:induction false} EscapedLinesHaveNoNul(lines: seq<Bytes>)
    requires forall i :: 0 <= i < |lines| ==> PlainLine(lines[i])
    ensures NUL !in EscapedLines(lines)
    decreases |lines|
  {
    if lines != [] {
      assert PlainLine(lines[0]);
      EscapedLinesHaveNoNul(lines[1..]);
    }
  }

  /** `*1\r\n$4\r\nPING\r\n`, with escaped line ends, as client_input_test.rs:17 sends it. */
  const PingLines: seq<Bytes> := ["*1", "$4", "PING"]

  /** `*3\r\n$4\r\nECHO\r\n$5\r\nhello\r\n$5\r\nworld\r\n`, as client_input_test.rs:42 sends it. */
  const EchoLines: seq<Bytes> := ["*3", "$4", "ECHO", "$5", "hello", "$5", "world"]

  /** Zero padding appended to NUL-free text is all that `StripNul` removes. */
  lemma StripPadding(s: Bytes, pad: Bytes)
    requires NUL !in s
    requires forall i :: 0 <= i < |pad| ==> pad[i] == NUL
    ensures StripNul(s + pad) == s
  {
    RemoveCharConcat(s, pad, NUL);
    RemoveCharSpec(s, NUL);
    RemoveCharSpec(pad, NUL);
  }

  /** Proof step of `PlainRequestFacts`: a request whose first line has two bytes starts with those two bytes and a backslash. */
  lemma EscapedLinesStart(lines: seq<Bytes>)
    requires lines != [] && |lines[0]| == 2
    ensures |EscapedLines(lines)| >= 3
    ensures EscapedLines(lines)[0] == lines[0][0]
    ensures EscapedLines(lines)[1] == lines[0][1]
    ensures EscapedLines(lines)[2] == '\\'
  {
    var request := EscapedLines(lines);
    assert request == lines[0] + (EscapedCrlf + EscapedLines(lines[1..]));
    assert request[2] == EscapedCrlf[0];
  }

  /**
   * A request of plain escaped lines whose first line is two bytes: no NUL,
   * those two bytes and a backslash first, and the lines at positions
   * 2, 4, 6, … as tokens.
   */
  lemma PlainRequestFacts(lines: seq<Bytes>)
    requires lines != [] && |lines[0]| == 2
    requires forall i :: 0 <= i < |lines| ==> PlainLine(lines[i])
    ensures NUL !in EscapedLines(lines)
    ensures |EscapedLines(lines)| >= 3
    ensures EscapedLines(lines)[0] == lines[0][0] && EscapedLines(lines)[1] == lines[0][1]
    ensures EscapedLines(lines)[2] == '\\'
    ensures Tokens(EscapedLines(lines)) == EveryOther(Skip(lines, 2))
  {
    EscapedLinesHaveNoNul(lines);
    EscapedLinesStart(lines);
    PiecesOfEscapedLines(lines);
  }

  lemma EveryOtherOfFive(a: Bytes, b: Bytes, c: Bytes, d: Bytes, e: Bytes)
    ensures EveryOther([a, b, c, d, e]) == [a, c, e]
  {
    assert [a, b, c, d, e][2..] == [c, d, e];
    assert [c, d, e][2..] == [e];
    assert EveryOther([e]) == [e] + EveryOther([]);
    assert EveryOther([c, d, e]) == [c] + EveryOther([e]);
    assert EveryOther([a, b, c, d, e]) == [a] + EveryOther([c, d, e]);
  }

  /** The lines of the ping request are plain, and its only token is `PING`. */
  lemma PingLinesFacts()
    ensures forall i :: 0 <= i < |PingLines| ==> PlainLine(PingLines[i])
    ensures EveryOther(Skip(PingLines, 2)) == ["PING"]
  {
    assert PlainLine("*1") && PlainLine("$4") && PlainLine("PING");
    assert Skip(PingLines, 2) == ["PING"];
    assert EveryOther(["PING"]) == ["PING"];
  }

  /** The lines of the echo request are plain, and its tokens are `ECHO`, `hello` and `world`. */
  lemma EchoLinesFacts()
    ensures forall i :: 0 <= i < |EchoLines| ==> PlainLine(EchoLines[i])
    ensures EveryOther(Skip(EchoLines, 2)) == ["ECHO", "hello", "world"]
  {
    EchoLinesPlain();
    assert Skip(EchoLines, 2) == ["ECHO", "$5", "hello", "$5", "world"];
    EveryOtherOfFive("ECHO", "$5", "hello", "$5", "world");
  }

  lemma EchoLinesPlain()
    ensures forall i :: 0 <= i < |EchoLines| ==> PlainLine(EchoLines[i])
  {
    assert PlainLine("*3") && PlainLine("$4") && PlainLine("ECHO");
    assert PlainLine("$5") && PlainLine("hello") && PlainLine("world");
  }

  /** The verbs of the two test requests, in upper case, are recognised. */
  lemma LegacyVerbExamples()
    ensures LegacyVerb("PING") == Some(Ping)
    ensures LegacyVerb("ECHO") == Some(Echo)
  {
    assert ToLower("PING") == "ping";
    assert ToLower("ECHO") == "echo";
  }

  /**
   * A fresh session that reads a request made of plain escaped lines,
   * followed by NUL padding as the test helper's zero-filled buffer holds
   * it, parses to the digit of the first line, the verb of the first token
   * and the remaining tokens.
   */
  method ReadPaddedLines(lines: seq<Bytes>, pad: Bytes)
      returns (count: Option<u8>, command: Option<Command>, args: Option<seq<Bytes>>)
    requires lines != [] && |lines[0]| == 2 && lines[0][0] == '*' && IsDigit(lines[0][1])
    requires forall i :: 0 <= i < |lines| ==> PlainLine(lines[i])
    requires forall i :: 0 <= i < |pad| ==> pad[i] == NUL
    requires |EveryOther(Skip(lines, 2))| == DigitValue(lines[0][1]) >= 1
    ensures count == Some(DigitValue(lines[0][1]) as u8)
    ensures command == LegacyVerb(EveryOther(Skip(lines, 2))[0])
    ensures args == Some(EveryOther(Skip(lines, 2))[1..])
  {
    var request := EscapedLines(lines);
    PlainRequestFacts(lines);
    count, command, args := ReadPaddedRequest(request, pad);
  }

  /**
   * The same for any NUL-free request that `parse` accepts with a count of
   * at least one, whether its lines end in CR-LF or in the escaped `\r\n`.
   */
  method ReadPaddedRequest(request: Bytes, pad: Bytes)
      returns (count: Option<u8>, command: Option<Command>, args: Option<seq<Bytes>>)
    requires NUL !in request
    requires forall i :: 0 <= i < |pad| ==> pad[i] == NUL
    requires |request| >= 2 && request[0] == '*' && IsDigit(request[1]) && IsCharBoundary(request, 2)
    requires |Tokens(request)| == DigitValue(request[1]) >= 1
    ensures count == Some(ArgCount(request))
    ensures command == LegacyVerb(Tokens(request)[0])
    ensures args == Some(Tokens(request)[1..])
  {
    StripPadding(request, pad);
    var client := new ClientInput();
    assert client.input + StripNul(request + pad) == request;
    assert ParseDefinedOn(request);
    var r := client.ReadInput(request + pad);
    count, command, args := r.value.NumArgsInInput(), r.value.Command(), r.value.Args();
  }

  /**
   * The ping test at client_input_test.rs:13-36: the request, padded with NUL
   * bytes as a read buffer is, parses to count 1, `PING` and no arguments.
   */
  method ParsePingRequest() returns (count: Option<u8>, command: Option<Command>, args: Option<seq<Bytes>>)
    ensures count == Some(1) && command == Some(Ping) && args == Some([])
  {
    PingLinesFacts();
    LegacyVerbExamples();
    assert ["PING"][1..] == [];
    count, command, args := ReadPaddedLines(PingLines, [NUL, NUL, NUL]);
  }

  /** The echo test at client_input_test.rs:38-64: count 3, `ECHO`, arguments `hello` and `world`. */
  method ParseEchoRequest() returns (count: Option<u8>, command: Option<Command>, args: Option<seq<Bytes>>)
    ensures count == Some(3) && command == Some(Echo) && args == Some(["hello", "world"])
  {
    EchoLinesFacts();
    LegacyVerbExamples();
    assert ["ECHO", "hello", "world"][1..] == ["hello", "world"];
    count, command, args := ReadPaddedLines(EchoLines, [NUL, NUL, NUL]);
  }
}
