# GlisWeb agent: the Modula command bridge

The GlisWeb agent is a small desktop service. It receives storage-controller
commands over HTTP (`POST /modula` with a JSON body holding `comando`) and
relays them to a Modula vertical storage controller over TCP. This project
models the bridge between those two sides and proves properties of it:

- **Codec** (`codec.dfy`) models `parse_modula`, the wire grammar. A command
  or a reply is a string of fields separated by `|`. Parsing splits on every
  `|` and trims each field as Python's `str.strip()` does. Trimming uses
  exactly the characters `str.isspace()` accepts.
- **Utf8** (`utf8.dfy`) models UTF-8 as RFC 3629 defines it.
  - The outbound frame is the command's UTF-8 bytes followed by one carriage
    return.
  - The reply is decoded strictly, as `bytes.decode('utf-8')` does. Overlong
    forms, surrogates and truncated sequences are rejected.
- **DeviceClient** (`device.dfy`) models `send_command`, one round trip. The
  socket is replaced by an oracle, `Device`. For the frame sent at a given
  attempt, it yields either the bytes a single 30-byte read returns, or
  `Broken` when any step of the exchange fails. A failed exchange, or a reply
  that is not valid UTF-8, yields the parsed sentinel `["-99"]`.
- **Retry** (`retry.dfy`) models `lazy_call`, the polling loop for CALL. It is
  a `while true` method whose loop stops:
  - on a terminal status (`0`, `-1`, `-2`, `-5`, `-6`);
  - on a reply with fewer than four fields;
  - or after the 300th attempt.

  The method is proved equal to a specification function, `PollFrom`, over
  the replies of the device attempt by attempt.
- **Bridge** (`bridge.dfy`) models `modula_request`. It parses the command,
  routes it by the kind at field 2, and translates the final reply into the
  response record (`comando`, `status`, `risposta`, `info`, `errori`).
  - CALL is polled.
  - RETURN and STATUS are sent once.
  - Any other kind is refused without contacting the device.

  Python's unguarded list indexing is kept. Where the handler raises
  `IndexError`, the model returns `Err(IndexError(i))`; the web framework
  would answer that request with an internal error.

Some behaviour of the code as written is easy to miss; the model follows the
code in each case:

- The translation keys on the kind the device echoes in its reply
  (`risultato[2]`), not on the kind of the command that was sent
  (`EchoedKindDecides`).
- A short reply is not always handled. A one- or two-field reply other than
  the sentinel raises `IndexError` on index 2, whatever the kind. RETURN and
  STATUS never check the length, and CALL's polling hands a short reply back
  unchanged, so it reaches the same index (`ShortReplyAborts`).
- A three-field reply that echoes CALL or RETURN raises `IndexError` on
  index 3. A three-field reply that echoes any other kind is reported as
  executed, because Python's `and` short-circuits before index 3 is read
  (`Translate`, `TranslationFaults`, `TranslateIsTableLookup`).
- A command with fewer than three fields raises `IndexError` before any
  exchange (`ShortCommandAborts`).
- A CALL that times out is not distinguished from success. The translation
  has no timeout case, so a busy reply returned after 300 attempts is
  reported as `comando eseguito` (`CallTimeoutReportedExecuted`).

## Model

| member | source | states |
|---|---|---|
| Codec.StripStartCut | glisweb-agent.py:91 | stripping the front removes exactly a whitespace prefix and leaves a result that starts with a non-whitespace character or is empty |
| Codec.StripEndCut | glisweb-agent.py:91 | stripping the back removes exactly a whitespace suffix and leaves a result that ends with a non-whitespace character or is empty |
| Codec.Strip | glisweb-agent.py:91 | the result has no whitespace at either end and is never longer than the input |
| Codec.StripInfix | glisweb-agent.py:91 | the stripped string is a contiguous infix of the input |
| Codec.StripKeepsOut | glisweb-agent.py:91 | stripping never introduces a character the input does not hold |
| Codec.StripOfTrimmed | glisweb-agent.py:91 | a string with no whitespace at either end strips to itself |
| Codec.StripUnique | glisweb-agent.py:91 | a trimmed string surrounded by whitespace on both sides strips to exactly itself |
| Codec.StripTrimmed | glisweb-agent.py:91 | stripping leaves trimmed strings unchanged and is idempotent |
| Codec.Split | glisweb-agent.py:88 | splitting on the separator yields one piece more than there are separators, and no piece holds a separator |
| Codec.JoinSplit | glisweb-agent.py:88 | joining the pieces of a split with the separator gives back the input |
| Codec.SplitJoin | glisweb-agent.py:88 | splitting inverts joining for any non-empty list of separator-free fields |
| Codec.ParseModula | glisweb-agent.py:85-93 | `parse_modula` returns exactly one field more than the input has separators, so never an empty list, and every field is trimmed and free of separators |
| Codec.ParsePadded | glisweb-agent.py:85-93 | joining clean fields with arbitrary whitespace padding around each one parses back to exactly those fields |
| Codec.ParseNoPipe | glisweb-agent.py:88-93 | a string without a separator parses to the one-element list of its stripped self |
| Codec.ParseSentinel | glisweb-agent.py:135-137 | `parse_modula("-99")` is `["-99"]` |
| Codec.ParseJoin | glisweb-agent.py:85-93 | parsing inverts joining for every non-empty list of clean fields |
| Codec.ParseExample | glisweb-agent.py:85-93 | the command 01, 02, CALL, 10 written with a space on each side of every separator parses to the four bare fields |
| Utf8.EncodeChar | glisweb-agent.py:115 | a character encodes to 1 to 4 bytes; it is one byte, equal to its code point, exactly when it is ASCII; every byte of a multi-byte form has the high bit set |
| Utf8.Encode | glisweb-agent.py:115 | the encoding is between one and four bytes per character |
| Utf8.DecodeChar | glisweb-agent.py:125 | a decoded head sequence is 1 to 4 bytes long and lies within the input |
| Utf8.Decode | glisweb-agent.py:125 | a successful decode yields no more characters than there were bytes |
| Utf8.Frame | glisweb-agent.py:115 | one CR byte is appended as the last byte, and everything before it is the encoded command; `CarriageReturnOnlyFromCommand` gives when that CR is the only one |
| Utf8.DecodeEncodeChar | glisweb-agent.py:125 | strict decoding reads back the encoding of any character, whatever bytes follow it |
| Utf8.DecodeEncode | glisweb-agent.py:115-125 | decoding the UTF-8 encoding of any string gives that string back |
| Utf8.EncodeDecodeChar | glisweb-agent.py:125 | every head sequence the strict decoder accepts is exactly the UTF-8 encoding of the character it yields, so overlong forms, surrogates and values above U+10FFFF are rejected |
| Utf8.EncodeDecode | glisweb-agent.py:125 | every byte string the strict decoder accepts is the encoding of the text it yields |
| Utf8.DecodeExactlyEncodings | glisweb-agent.py:115-125 | bytes decode to a string if and only if they are that string's encoding |
| Utf8.RejectsMalformed | glisweb-agent.py:125 | an overlong NUL, an encoded surrogate, a truncated sequence and a value above U+10FFFF each fail to decode |
| Utf8.FrameRoundTrip | glisweb-agent.py:115 | dropping the frame's last byte and decoding gives the command back |
| Utf8.CarriageReturnOnlyFromCommand | glisweb-agent.py:115 | the encoding holds a CR byte exactly when the command holds `\r`, so in a command without one the terminator is the frame's only CR |
| Utf8.EncodeAscii | glisweb-agent.py:115 | ASCII text encodes byte for byte |
| DeviceClient.ReplyText | glisweb-agent.py:122-135 | a broken exchange yields no reply text; a decoded reply has at most 30 characters, the size of the single read |
| DeviceClient.SendCommand | glisweb-agent.py:96-137 | any failure (broken exchange or undecodable reply) yields exactly `["-99"]`, whatever the command; otherwise the reply has one field more than it has separators |
| DeviceClient.SendCommandClean | glisweb-agent.py:133-137 | every field `send_command` returns is trimmed and free of separators, on the failure path as on the success path |
| DeviceClient.AnswerParsed | glisweb-agent.py:122-137 | a reply sent as UTF-8 that fits the 30-byte read is parsed exactly as `parse_modula` parses its text |
| DeviceClient.AnswerFields | glisweb-agent.py:122-137 | a device answering with clean ASCII fields that fit the buffer is understood field for field |
| Retry.PollFrom | glisweb-agent.py:147-178 | polling from a given attempt ends at the first attempt whose reply stops the loop, never beyond attempt 300, and returns that attempt's reply |
| Retry.LazyPoll | glisweb-agent.py:140-180 | `lazy_call` makes between 1 and 300 exchanges |
| Retry.LazyCall | glisweb-agent.py:140-180 | the loop returns the reply of its last exchange and makes exactly the exchanges of `LazyPoll`: it stops at the first terminal, short or 300th reply and at no earlier one |
| Retry.FirstStopDecides | glisweb-agent.py:154-178 | if attempt n stops the loop and no earlier attempt does, the run makes exactly n exchanges and returns the n-th reply |
| Retry.TimeoutSpendsBudget | glisweb-agent.py:155-173 | a returned reply with a status that is not terminal means exactly 300 exchanges were made |
| Retry.ShortReplyStops | glisweb-agent.py:176-178 | a reply with fewer than four fields, the sentinel included, ends the run at the attempt it arrives, with no further exchange |
| Retry.TerminalOnLastAttempt | glisweb-agent.py:155-173 | a terminal code on the 300th attempt is returned as that code, because the codes are compared before the counter |
| Retry.PollEndsAt | glisweb-agent.py:147-178 | replies that repeat one non-terminal status before attempt n, followed by a stopping reply at n, end the run at n with that reply |
| Bridge.Translate | glisweb-agent.py:252-268 | the translation raises exactly when `TranslationFaults` says Python's indexing raises; otherwise the response is either "command executed" or exactly one error |
| Bridge.TranslateIsTableLookup | glisweb-agent.py:252-268 | the sentinel at index 0 wins over everything else; for a reply with a status, the response is the table's error for the pair (echoed kind, code) when the pair is in the six-entry table, and executed for every other pair; a three-field reply echoing neither CALL nor RETURN is executed |
| Bridge.Serve | glisweb-agent.py:226-279 | a request makes at most 300 device exchanges |
| Bridge.ModulaRequest | glisweb-agent.py:226-279 | the handler's response and its number of exchanges are those of `Serve` |
| Bridge.ShortCommandAborts | glisweb-agent.py:226-229 | a command with fewer than two separators aborts on index 2 before any exchange |
| Bridge.UnsupportedKindRefused | glisweb-agent.py:270-276 | a kind other than CALL, RETURN and STATUS yields one error naming the command, and no device exchange |
| Bridge.Routing | glisweb-agent.py:229-249 | CALL is translated from the polled reply after 1 to 300 exchanges; RETURN and STATUS are translated from a single exchange |
| Bridge.ServeOneOutcome | glisweb-agent.py:252-276 | every response is either "command executed" with status OK, or exactly one error |
| Bridge.FailureReported | glisweb-agent.py:238-253 | a failed first exchange is reported as a send failure after one exchange, for CALL as for RETURN and STATUS |
| Bridge.ShortReplyAborts | glisweb-agent.py:246-256 | a one- or two-field first reply other than the sentinel aborts on index 2 after one exchange, for RETURN and STATUS and for CALL alike |
| Bridge.EchoedKindDecides | glisweb-agent.py:254-255 | a STATUS command answered with a CALL reply carrying `-1` gets the CALL message "cassetto non valido" |
| Bridge.ServedFromFirstReply | glisweb-agent.py:238-268 | a routed command whose first reply ends the request is served from that reply's translation after one exchange |
| Bridge.CallDoneAtOnce | glisweb-agent.py:238-268 | the CALL command 01, 02, CALL, 10 answered at once with status 0 is executed after one exchange |
| Bridge.ReturnBayInvalid | glisweb-agent.py:262-265 | the RETURN command 05, 09, RETURN, 0 answered with status -2 is refused as "piazzola non valida" after one exchange, with no retry |
| Bridge.PolledReplies | glisweb-agent.py:151 | a device answering clean fields at every attempt hands the polling loop exactly those fields |
| Bridge.ServedFromPolling | glisweb-agent.py:238-268 | a CALL answered with a non-terminal status before attempt n and with a stopping reply at n is served from that reply's translation after exactly n exchanges |
| Bridge.CallPolledExecuted | glisweb-agent.py:147-173 | a CALL answered busy ("3") before attempt n and at attempt n either done ("0") or, at the 300th attempt, still busy, is reported as executed after exactly n exchanges |
| Bridge.CallDoneAtFifth | glisweb-agent.py:147-157 | a CALL answered busy ("3") four times and done ("0") at the fifth attempt is executed after exactly five exchanges |
| Bridge.CallTimeoutReportedExecuted | glisweb-agent.py:170-173 | a CALL answered busy at all 300 attempts is given up after exactly 300 exchanges and is still reported as executed |

## Left out

- The Flask application, the CORS headers and the JSON marshalling are not modelled. This is HTTP glue. The branch for a request without `comando` is left out too: it refers to `risposta` before assigning it.
- The socket steps (create, connect, send, the read, close) are replaced by the `Device` oracle. Its answer is taken to be what one `recv(30)` returns.
- The model does not capture a read returning fewer bytes than the device sent within the first 30. The model reads the first 30 bytes the device yields.
- Host and port configuration, `configparser` and logging are left out. They are external configuration and I/O.
- The one-second `time.sleep` between polling attempts is left out. The model counts attempts instead of time.
- Desktop notifications (received command, unsupported kind, polling timeout) and the tray icon are left out. They are presentation-only calls and are assumed not to fail; a failing `notification.notify` (glisweb-agent.py:235, glisweb-agent.py:172) would abort the request instead.
- Process supervision is left out: the processes, the daemon context and the dispatch by operating system. These are concurrency and OS plumbing.
- Python strings can hold lone surrogates, which `str.encode('utf-8')` rejects; the exchange would then yield `["-99"]`. Dafny characters are Unicode scalar values, so such a command cannot be expressed.
- Retry.LazyCall: the attempt count is a ghost result. `lazy_call` does not return it; the model exposes it only to state how many exchanges were made.
- Bridge.ModulaRequest: the exchange count is a ghost result, for the same reason.
