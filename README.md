# A verified model of the core of redis-starter-rust

redis-starter-rust is a small Redis-style server written in Rust. This
project models its core in Dafny and proves properties of the model:

- **The key-value store** (`src/store/redis.rs`), modelled as the class
  `Store.RedisStore`. It keeps two maps: one from key to value, one from key
  to metadata (when the key was written and when it expires). `get`, `set`,
  `is_key_expired` and `delete` work on those maps, with the clock passed in
  as a parameter `now` in milliseconds. The process-wide `STORE` slot and its
  `initialise` / `get_store` / `reset` lifecycle are the class
  `Store.GlobalStore`. Both builds of `initialise` are modelled: the default
  build runs once per process through `Once`; the `integration_test` build
  runs on every call.
- **The line splitter of the RESP decoder** (`src/parser/parser.rs`).
  `Parser.ParseUntilCrlf` is the scanning loop of `parse_until_crlf`. It is
  proved equal to the specification function `Parser.SplitAtFirstCrlf`: the
  input split at its first CR-LF.
- **The reply encoder** (`src/request_response/response_helper.rs`). The bytes
  of the simple-string, pong and bulk-string replies, with round-trip lemmas:
  the splitter reads each reply back to the text, the length and the data it
  was built from.
- **Request handling** (`src/lib.rs`, `command.rs`, `parsed_command.rs`):
  - `ParsedCommands.ParsedCommand` is the mutable record, with its setters.
  - `Commands.From` is the case-insensitive verb lookup.
  - `Connection.RespOutputToParsedCommand` is the append loop that turns a
    decoded RESP array into a command.
  - Decoder errors are mapped onto application errors, and each application
    error is classified into what the connection loop does next.
  - `Connection.ConnectionStep` is one step of `handle_connection_helper`.
- **The session buffer and the legacy text parser**
  (`src/request_response/client_input.rs`). `ClientInputs.ClientInput` holds
  the buffer that grows by `append_input` and is emptied by `reset`. Its
  `parse` reads requests such as `*2\r\n$4\r\necho\r\n$5\r\nhello\r\n`, in
  which each `\r\n` may be the four characters backslash, `r`, backslash, `n`.

Strings are sequences of bytes (`Text.Bytes`). Rust's `u8`, `u64` and `i64`
are the newtypes `Text.u8`, `Text.u64` and `Text.i64`. The two places where
their width matters are modelled explicitly:

- the wrapping cast `expire_in_ms as i64` (`Store.AsI64`);
- the cast `string_split.len() as u8` in `parse`, which is taken modulo 256.

Where the behaviour documented for the repository differs from its code, the
model follows the code:

- `is_key_expired` compares with a strict `<`: a key is still live at the
  exact millisecond it expires.
- The decoder error `CRLFNotFound` becomes an `AppError::ParseError`, which
  ends the connection. It is not treated as incomplete input.
- After `reset`, calling `initialise` again installs nothing in the default
  build, because the `Once` guard has already run. The test at
  `src/store/redis.rs:203-231` therefore only holds in the `integration_test`
  build. `Store.ResetThenInitialise` proves both outcomes.
- `command.rs` has no `SET` variant and no `append_arg`, yet `lib.rs` uses
  both. `Commands.Command` has a `Set` case. `AppendArg` appends to the
  argument list.
- The `lib.rs` test builds `ParsedCommand`s with an `args: Vec` field. The
  model compares `ArgList()`, the argument list with an unset list read as
  empty.

## Model

| member | source | states |
|---|---|---|
| `Parser.FindCrlfFrom` | src/parser/parser.rs:60-63 | returns the first index at or after `from` where CR is followed by LF; nothing before it matches; `None` only when no later index matches |
| `Parser.SplitAtFirstCrlf` | src/parser/parser.rs:59-66 | fails, with `CRLFNotFound`, iff the input has no CR-LF; on success the input is `before ++ CRLF ++ after`, `after` is two bytes shorter than the input minus `before`, and no CR-LF starts inside `before` |
| `Parser.ParseUntilCrlf` | src/parser/parser.rs:59-66 | for any non-empty input, the scanning loop returns exactly the split at the first CR-LF, or `CRLFNotFound` |
| `Parser.FirstCrlfDeterminesSplit` | src/parser/parser.rs:60-63 | a CR-LF at `k` with none before it is where the input is split |
| `Parser.SplitFramed` | src/parser/parser.rs:61-62 | a frame `s ++ CRLF ++ rest` with no CR-LF in `s` splits back into `s` and `rest` |
| `Parser.NoCrNoCrlf` | src/parser/parser.rs:61 | bytes without a CR contain no CR-LF |
| `Parser.ParseLineExample` | src/parser/parser.rs:73-88 | `hello world\r\n` splits into `hello world` and nothing |
| `Parser.ParseLengthLineExample` | src/parser/parser.rs:73-88 | `5\r\nhello\r\n` splits at its first CR-LF into `5` and `hello\r\n` |
| `Parser.ParseUnterminatedExample` | src/parser/parser.rs:90-100 | `hello world` gives `CRLFNotFound` |
| `ResponseHelper.PongBytes` | src/request_response/response_helper.rs:15-17 | the pong reply is exactly `+PONG\r\n` |
| `ResponseHelper.FormatStringResponse` | src/request_response/response_helper.rs:30-32 | the simple-string reply: `+`, the text, CR-LF; its partner `SimpleStringRoundTrip` reads the text back |
| `ResponseHelper.PongResponse` | src/request_response/response_helper.rs:15-17 | the pong reply is the simple-string reply of `PONG`; `PongBytes` gives its bytes |
| `ResponseHelper.BulkStringResponse` | src/request_response/response_helper.rs:4 | the bulk reply: `$`, the byte length in decimal, CR-LF, the data, CR-LF; its partner `BulkStringRoundTrip` reads the length and the data back |
| `ResponseHelper.SimpleStringRoundTrip` | src/request_response/response_helper.rs:30-32 | a simple-string reply starts with `+`, and the splitter returns its text and nothing after it |
| `ResponseHelper.BulkStringRoundTrip` | src/request_response/response_helper.rs:4 | a bulk reply starts with `$`; one split gives digits that read back as the data's length; a second split gives the data and nothing after it |
| `ResponseHelper.BulkStringExample` | tests/response_helper.rs:6-14 | the bulk reply of `hello` is `$5\r\nhello\r\n` |
| `ResponseHelper.BulkStringTwoDigitExample` | tests/lib_test.rs:63 | the bulk reply of `helloworld` is `$10\r\nhelloworld\r\n` |
| `Text.ToLower` | src/request_response/command.rs:12 | lower-cases every ASCII letter and keeps every other byte, position by position |
| `Text.ToLowerIdempotent` | src/request_response/command.rs:12-16 | lower-casing twice is lower-casing once |
| `Text.TrimStart` | src/request_response/client_input.rs:63 | drops exactly the leading whitespace: the result is a suffix that starts with no whitespace |
| `Text.TrimEnd` | src/request_response/client_input.rs:63 | drops exactly the trailing whitespace: the result is a prefix that ends with no whitespace |
| `Text.Trim` | src/request_response/client_input.rs:63 | never lengthens the text; a non-empty result neither starts nor ends with whitespace; text with no whitespace at either end is kept as it is |
| `Text.RemoveCharSpec` | src/request_response/client_input.rs:42 | removing every NUL leaves no NUL, never lengthens the text, and is the identity on NUL-free text |
| `Text.RemoveCharConcat` | src/request_response/client_input.rs:42 | removing a byte distributes over concatenation |
| `Text.Replace` | src/request_response/client_input.rs:59 | a replacement no longer than the pattern never lengthens the text; its partners `ReplaceSkipsPrefix` and `ReplaceAtMatch` say where matches are substituted |
| `Text.ReplaceSkipsPrefix` | src/request_response/client_input.rs:59 | `replace` copies text that cannot start a match unchanged |
| `Text.ReplaceAtMatch` | src/request_response/client_input.rs:59 | `replace` substitutes a match at the front and goes on after it |
| `Text.SplitOn` | src/request_response/client_input.rs:60 | `split` gives at least one piece, and no piece holds the delimiter |
| `Text.SplitOnJoin` | src/request_response/client_input.rs:60 | joining the pieces of `split` with the delimiter rebuilds the input |
| `Text.SplitOnPrefix` | src/request_response/client_input.rs:60 | text without the delimiter, followed by the delimiter, is the first piece |
| `Text.SplitOnWhole` | src/request_response/client_input.rs:60 | text without the delimiter is one piece |
| `Text.Decimal` | src/request_response/response_helper.rs:4 | `format!("{}", n)` is one or more digits, with no leading zero and no CR or LF |
| `Text.DecimalRoundTrip` | src/request_response/response_helper.rs:4 | the decimal form of `n` reads back as `n` |
| `Commands.From` | src/request_response/command.rs:9-21 | `Echo`, `Ping`, `Get` iff the lower-cased input is `echo`, `ping`, `get`; never `Set` |
| `Commands.FromIgnoresCase` | src/request_response/command.rs:12-16 | the result depends only on the lower-cased input |
| `Commands.FromInjective` | src/request_response/command.rs:12-18 | two inputs giving the same command spell the same verb up to case |
| `Commands.FromExamples` | src/request_response/command.rs:29-54 | `random` and `set` give nothing; `echo`, `ping`, `get` and `GeT` give their commands |
| `ParsedCommands.ParsedCommand.constructor` | src/request_response/parsed_command.rs:16-22 | all three fields unset |
| `ParsedCommands.ParsedCommand.SetNumArgsInInput` | src/request_response/parsed_command.rs:36-38 | sets the count; the command and arguments are unchanged |
| `ParsedCommands.ParsedCommand.SetCommand` | src/request_response/parsed_command.rs:39-41 | sets the command; the count and arguments are unchanged |
| `ParsedCommands.ParsedCommand.SetArgs` | src/request_response/parsed_command.rs:43-45 | sets the arguments; the count and command are unchanged |
| `ParsedCommands.ParsedCommand.AppendArg` | src/lib.rs:111 | the argument list becomes the old list, an unset one read as empty, followed by the new argument; nothing else changes |
| `ParsedCommands.GettersReturnLastSet` | src/request_response/parsed_command.rs:24-34 | each getter returns the value its setter stored last, whatever else was set after it |
| `ClientInputs.StripNul` | src/request_response/client_input.rs:42 | no NUL is left, the text never grows, and NUL-free text is kept as it is |
| `ClientInputs.NonEmpty` | src/request_response/client_input.rs:61 | a piece is kept iff it is a non-empty piece of the input; nothing is added; the result is empty iff every piece is empty |
| `ClientInputs.NonEmptyAppend` | src/request_response/client_input.rs:61 | the filter keeps order: filtering a concatenation is concatenating the filtered parts |
| `ClientInputs.TrimAll` | src/request_response/client_input.rs:62-64 | each piece trimmed, none added or dropped |
| `ClientInputs.Pieces` | src/request_response/client_input.rs:58-65 | each line of the request is trimmed: a non-empty one neither starts nor ends with whitespace |
| `ClientInputs.Skip` | src/request_response/client_input.rs:73 | `skip(n)`: `n` fewer elements than the input, or none when it has no more than `n`; element `j` is the input's element `n + j` |
| `ClientInputs.EveryOther` | src/request_response/client_input.rs:74 | `step_by(2)` never lengthens the sequence and keeps only elements of its input |
| `ClientInputs.EveryOtherSpec` | src/request_response/client_input.rs:74 | `step_by(2)` keeps `(n + 1) / 2` elements, and element `j` is the input's element `2j` |
| `ClientInputs.Tokens` | src/request_response/client_input.rs:58-76 | every token is one of the trimmed lines of the request |
| `ClientInputs.TokensSpec` | src/request_response/client_input.rs:58-76 | token `j` is piece `2 + 2j`, and there are `(p - 1) / 2` tokens for `p > 2` pieces and none otherwise |
| `ClientInputs.LegacyVerb` | src/request_response/client_input.rs:84-89 | `Echo` iff the lower-cased token is `echo`, `Ping` iff it is `ping`, nothing else |
| `ClientInputs.ArgCount` | src/request_response/client_input.rs:53-54 | the count read from the digit after `*`, printed in decimal, is that digit again |
| `ClientInputs.ClientInput.constructor` | src/request_response/client_input.rs:12-16 | the buffer is empty |
| `ClientInputs.ClientInput.Reset` | src/request_response/client_input.rs:36-38 | the buffer is empty afterwards, whatever it held |
| `ClientInputs.ClientInput.AppendInput` | src/request_response/client_input.rs:40-43 | the new buffer is the old one followed by the argument without its NUL bytes; NUL-free text is appended as is |
| `ClientInputs.ClientInput.Parse` | src/request_response/client_input.rs:47-101 | `None` without a leading `*`; otherwise `Some` iff the token count, cut to a `u8`, equals the digit after `*`; `Some` carries that digit, the verb of the first token and the other tokens in order |
| `ClientInputs.ClientInput.ReadInput` | src/request_response/client_input.rs:18-27 | the buffer grows by the bytes read without NULs, and the result is `parse` of the grown buffer |
| `ClientInputs.ReplaceLines` | src/request_response/client_input.rs:59 | in lines without backslashes, each escaped `\r\n` becomes a newline |
| `ClientInputs.SplitLines` | src/request_response/client_input.rs:60 | newline-terminated plain lines split into those lines and a final empty piece |
| `ClientInputs.NonEmptyLines` | src/request_response/client_input.rs:61 | dropping empty pieces removes only that final piece |
| `ClientInputs.PiecesOfEscapedLines` | src/request_response/client_input.rs:58-76 | a request of plain escaped lines tokenizes to its lines, so its tokens are the lines at positions 2, 4, 6, … |
| `ClientInputs.StripPadding` | tests/client_input_test.rs:19-23 | removing NULs from NUL-free text followed by zero padding gives the text |
| `ClientInputs.ReadPaddedLines` | tests/client_input_test.rs:13-64 | a fresh session reading plain escaped lines with zero padding gets the digit of the first line, the verb of the first token and the other tokens |
| `ClientInputs.ReadPaddedRequest` | tests/client_input_test.rs:15-25 | a fresh session reading any NUL-free request with zero padding, its lines ending in CR-LF or in the escaped `\r\n`, gets the request's count, verb and remaining tokens |
| `ClientInputs.ParsePingRequest` | tests/client_input_test.rs:13-36 | the padded ping request parses to count 1, `Ping` and no arguments |
| `ClientInputs.ParseEchoRequest` | tests/client_input_test.rs:38-64 | the padded echo request parses to count 3, `Echo` and arguments `hello`, `world` |
| `Store.AsI64` | src/store/redis.rs:118 | `x as i64` is congruent to `x` modulo 2^64 and is non-negative iff `x < 2^63` |
| `Store.AsI64Small` | src/store/redis.rs:118 | a duration below 2^63 keeps its value |
| `Store.CheckedAddMs` | src/store/redis.rs:118 | `checked_add_signed`: `Some` iff the sum lies in chrono's date range, and then it is the instant plus the duration |
| `Store.MetaFor` | src/store/redis.rs:98-123 | the metadata `set` writes: created at `now`; an expiry iff there are options with a duration and `now` plus the duration cast to `i64` lies in the date range; the expiry is then that instant |
| `Store.NoExpiryNeverExpires` | src/store/redis.rs:101-111 | a key written without an expiry never reads as expired |
| `Store.HasExpired` | src/store/redis.rs:140-144 | a key has expired at `now` iff its metadata has an expiry strictly before `now` |
| `Store.ExpiryIsStrict` | src/store/redis.rs:144 | a key written at `t0` to expire in `ms` below 2^63, with `t0 + ms` in the date range, has expired at `now` iff `now > t0 + ms` |
| `Store.ExpiryOutOfRangeNeverExpires` | src/store/redis.rs:118-121 | when `t0` plus the cast duration falls outside the date range, the key gets no expiry and never reads as expired |
| `Store.HugeExpiryIsInThePast` | src/store/redis.rs:118 | a duration of 2^63 ms or more wraps negative: the key gets an expiry iff `ms >= 2^64 + MIN_TIME_MS - t0`, and then it has already expired at `t0` |
| `Store.KeySet` | src/store/redis.rs:150 | the distinct keys `delete` visits; `KeySetMembers` and `KeySetSize` state its members and size |
| `Store.KeySetMembers` | src/store/redis.rs:150 | the keys `delete` visits are exactly the listed ones |
| `Store.KeySetSize` | src/store/redis.rs:150 | a list names at most as many distinct keys as it has entries |
| `Store.DeleteStep` | src/store/redis.rs:151-153 | handling one key removes and counts it exactly when it still holds a value |
| `Store.SameKeysAfterRemoval` | src/store/redis.rs:151-152 | removing the same keys from both maps keeps their key sets equal |
| `Store.DeleteLoopStep` | src/store/redis.rs:150-156 | one iteration of the loop of `delete` keeps both maps equal to the originals without the keys seen so far, and the count equal to how many of those held a value |
| `Store.RedisStore.constructor` | src/store/redis.rs:42-45 | both maps empty, so every key has both a value and metadata |
| `Store.RedisStore.Get` | src/store/redis.rs:75-88 | `Some` iff the key holds a string, and then that string; `None` for an absent key or a list |
| `Store.RedisStore.IsKeyExpired` | src/store/redis.rs:127-145 | true iff the key has metadata with an expiry strictly before `now`; false for an absent key or one without expiry |
| `Store.RedisStore.Set` | src/store/redis.rs:90-125 | stores the value and fresh metadata under the key; returns the previous value iff there was one; reads back the new value; every other key reads as before; keeps both maps on the same keys |
| `Store.RedisStore.Delete` | src/store/redis.rs:147-158 | removes the listed keys from both maps; returns how many distinct listed keys held a value, at most the number listed; keeps both maps on the same keys |
| `Store.GlobalStore.constructor` | src/store/redis.rs:10-11 | no store installed and the `Once` guard unused |
| `Store.GlobalStore.Initialise` | src/store/redis.rs:39-63 | installs a fresh empty store in the test build or on the first call; otherwise leaves the slot as it was |
| `Store.GlobalStore.GetStore` | src/store/redis.rs:65-73 | fails with `Store is not initialised.` iff no store is installed; otherwise returns the installed store |
| `Store.GlobalStore.Reset` | src/store/redis.rs:162-177 | empties both maps of the installed store and uninstalls it; with no store, nothing changes; the guard is kept |
| `Store.GetStoreBeforeInitialise` | src/store/redis.rs:194-201 | `get_store` before `initialise` fails with `Store is not initialised.` |
| `Store.ResetThenInitialise` | src/store/redis.rs:203-231 | the value reads back; after reset and initialise the store is empty in the test build and missing in the default build |
| `Store.SetThenGet` | src/store/redis.rs:233-298 | an absent key reads as `None`; a set key reads back, with metadata created at `now` and, for a clock reading within the date range, expiring 50 ms later when asked to |
| `Store.SetThenDelete` | src/store/redis.rs:300-323 | deleting a key listed twice deletes one key, after which it reads as `None` |
| `Store.KeyExpires` | src/store/redis.rs:325-352 | a key set, within the date range, to expire in 50 ms is live 50 ms later and expired 51 ms later |
| `Connection.FromParseError` | src/lib.rs:23-32 | an incomplete input stays incomplete; every other decoder error, `CRLFNotFound` included, is a parse error with its fixed message |
| `Connection.FromParseErrorInjective` | src/lib.rs:25-30 | distinct decoder errors give distinct application errors |
| `Connection.Classify` | src/lib.rs:40-56 | incomplete input continues the loop; a parse error or an I/O error is answered with its message and ends it; a closed connection ends it silently |
| `Connection.DecoderErrorOutcome` | src/lib.rs:42-53 | of the decoder errors only an incomplete input keeps the connection open; `CRLFNotFound` is answered and closes it |
| `Connection.ConnectionStep` | src/lib.rs:63-85 | a failed read is an `Error` and an empty read closes the connection, both leaving the buffer alone; otherwise the bytes join the buffer; a decoder failure is mapped and keeps the buffer; a success gives the command of the decoded value and empties the buffer |
| `Connection.StepFailureOutcome` | src/lib.rs:42-83 | a failed read is answered and ends the loop; a closed connection ends it; a decoder failure continues it iff the input was incomplete |
| `Connection.VerbOf` | src/lib.rs:97-107 | a command only for an array whose first element is a bulk string; `Set` iff that string is `set` in any case; the same as `Command::from` wherever that knows the verb |
| `Connection.BulkPayloadsAppend` | src/lib.rs:109-113 | collecting bulk payloads distributes over concatenation |
| `Connection.BulkPayloadsOfBulkStrings` | src/lib.rs:109-113 | an all-bulk-string sequence keeps every payload, in order |
| `Connection.BulkPayloads` | src/lib.rs:109-113 | never more payloads than elements, and every payload is that of a bulk string among them |
| `Connection.ArgsOf` | src/lib.rs:93-113 | arguments only for an array with at least two elements, and each is the payload of a bulk string after the first element |
| `Connection.BulkRequestArgs` | src/lib.rs:93 | the arguments of a bulk-string request are the strings after the verb, in order |
| `Connection.RespOutputToParsedCommand` | src/lib.rs:87-116 | a fresh command, with no count, whose verb is that of the first element and whose arguments are the bulk strings after it, in order; the argument list is set iff there is at least one |
| `Connection.PingExample` | src/lib.rs:125-129 | the `ping` array gives `Ping` and no arguments |
| `Connection.EchoExample` | src/lib.rs:130-135 | the `echo hello` array gives `Echo` and `hello` |
| `Connection.SetExample` | src/lib.rs:136-142 | the `set hello world` array gives `Set` and `hello`, `world` |
| `Connection.GetExample` | src/lib.rs:143-148 | the `get hello` array gives `Get` and `hello` |

## Left out

- Sockets and stream I/O are left out: `TcpListener`, `stream.read` and `stream.write`. A read becomes `Connection.ReadOutcome`, a parameter. The bytes a reply writes are functions. A failed write is only logged, so it changes nothing here.
- `println!` logging is left out.
- `respond`, `respond_error`, `parse_input` and the dispatch of GET and SET are not part of this model. Their code is not in the modelled files.
- Connection.ConnectionStep: appending the bytes read to the session buffer, and keeping them there when decoding fails, stands in for `parse_input`, which is not part of this model. That the buffer becomes the old buffer followed by the bytes without NULs is an assumption about that unseen code.
- The RESP decoder `parse_resp` is an empty stub. `Connection.ConnectionStep` takes its result on the session buffer as a parameter.
- The `Option`-taking `send_bulk_string_response` and its null reply `$-1\r\n`, which the tests call, are not part of this model. Only the `&str` version exists in the modelled files.
- The singleton is modelled without concurrency. `static mut STORE` and `std::sync::Once` become the object `Store.GlobalStore` with an `initDone` flag. Thread safety and `unsafe` aliasing of the returned `&'static mut` are not modelled.
- `INIT_COUNT` is left out: nothing reads it.
- Store.GlobalStore.Initialise: never fails. In the `integration_test` build, `INIT_COUNT += 1` on a `u8` overflows on the 256th call with no reset in between, which panics in a debug build. That panic is not modelled.
- Time is an integer number of milliseconds within chrono's date range, from the first millisecond of year -262144 (`MIN_TIME_MS`) to the last of year 262143 (`MAX_TIME_MS`). Sub-millisecond precision is not modelled.
- `checked_add_signed` gives `None` when the expiry falls outside that range. The model follows it: the key then gets no expiry (`Store.CheckedAddMs`, `Store.ExpiryOutOfRangeNeverExpires`).
- A duration of exactly 2^63 ms is cast to `i64::MIN`. Newer chrono releases panic in `Duration::milliseconds` on it; the model gives no expiry there, as the sum is outside the date range either way. The panic is not modelled.
- The `DateTimeMetaBuilder` is not part of this model. Its `expire_at` is taken to store the `Option` it is given, and `build` to give that expiry and the creation time.
- `to_lowercase`, `trim` and `is_whitespace` act on ASCII only. `from_utf8_lossy` is taken as the identity, so invalid UTF-8 is not replaced by U+FFFD.
- `LinkedList` and `LinkedListNode` are kept only as the payload of the `List` case of `DataType`; no operation creates or changes one. The `Set` and `Hash` types of `redis_data_structure.rs` are left out.
- Store.RedisStore.Delete: requires the class invariant `Valid()`, which states that both maps have the same keys. `new` and `Set` keep it. It also requires fewer than 2^64 keys, because a `Vec` cannot hold more and the count is a `u64`.
- Store.ExpiryIsStrict: covers durations below 2^63 ms whose expiry lies in the date range. `Store.HugeExpiryIsInThePast` states what the wrapping cast does above that, and `Store.ExpiryOutOfRangeNeverExpires` what happens outside the range.
- Parser.ParseUntilCrlf: requires a non-empty input. On empty input `input.len() - 1` underflows and panics.
- ClientInputs.ClientInput.Parse: requires `ParseDefinedOn(input)`, which excludes the inputs on which `parse` panics:
  - an empty buffer, where `&input[0..1]` panics;
  - an input whose first character is more than one byte;
  - a `*` not followed by a one-byte digit;
  - a count of 0 with no tokens, where `remove(0)` panics.
- ClientInputs.ClientInput.ReadInput: requires the same of the grown buffer.
- Connection.RespOutputToParsedCommand: requires a non-empty array, because `arr[0]` panics on an empty one.
- Connection.ConnectionStep: requires a non-empty array for the same reason. The reply sent by `respond` between decoding and `reset` is not modelled.
