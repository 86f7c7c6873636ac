/** The `/modula` request handler (`modula_request`): it parses the command,
    routes it by kind (CALL is polled, RETURN and STATUS are sent once, any
    other kind is refused without contacting the device) and translates the
    final reply into the JSON-shaped response. Python's unguarded list
    indexing is kept: where the handler would raise `IndexError`, the model
    returns `Err(IndexError(i))`. */
module Bridge {
  import opened Codec
  import opened DeviceClient
  import opened Retry

  /** The response object: `comando`, `status`, `risposta`, `info`, `errori`. */
  datatype Response = Response(comando: string, status: string, risposta: string,
                               info: seq<string>, errori: seq<string>)

  /** Python's `IndexError` on a list index: the handler aborts. */
  datatype Fault = IndexError(index: nat)

  datatype Result<T> = Ok(value: T) | Err(fault: Fault)

  /** The command kinds the handler routes. */
  const Kinds: set<string> := {"CALL", "RETURN", "STATUS"}

  const SendFailed: string := "errore durante l'invio del comando"
  const Executed: string := "comando eseguito"
  const Unexpected: string := "comando non previsto ricevuto: "

  /** The device codes reported as errors, keyed by the kind echoed in the
      reply and the status code. */
  const Table: map<(string, string), string> := map[
    ("CALL", "-1") := "cassetto non valido",
    ("CALL", "-2") := "piazzola non valida",
    ("CALL", "-5") := "login non effettuato o piazzola non attiva",
    ("CALL", "-6") := "modalità automatica non inserita",
    ("RETURN", "-1") := "piazzola vuota",
    ("RETURN", "-2") := "piazzola non valida"
  ]

  /** The response as first built for a received command. */
  function Blank(comando: string): Response {
    Response(comando, "", "", [], [])
  }

  /** A response carrying the single error `message`. */
  function Refused(comando: string, message: string): Response {
    Blank(comando).(errori := [message])
  }

  /** A response reporting that the command was executed. */
  function Accepted(comando: string): Response {
    Blank(comando).(status := "OK", risposta := Executed)
  }

  /** A well-formed outcome: the command executed, or exactly one error. */
  predicate OneOutcome(comando: string, r: Response) {
    r == Accepted(comando) || (|r.errori| == 1 && r == Refused(comando, r.errori[0]))
  }

  /** Whether the translation chain raises: index 0 of an empty reply, or,
      past the sentinel test, index 2 of a reply with fewer than three
      fields, or index 3 of a three-field reply that echoes CALL or RETURN.
      A three-field reply echoing any other kind falls through untouched. */
  predicate TranslationFaults(risultato: Fields) {
    |risultato| == 0
    || (risultato[0] != Sentinel
        && (|risultato| < 3 || (|risultato| == 3 && risultato[2] in {"CALL", "RETURN"})))
  }

  /** The result-to-outcome chain: the sentinel at index 0 first, then the
      CALL codes, then the RETURN codes, compared in that order and keyed on
      the kind echoed at index 2 of the reply; everything else executed. */
  function Translate(comando: string, risultato: Fields): (r: Result<Response>)
    ensures r.Err? <==> TranslationFaults(risultato)
    ensures r.Ok? ==> OneOutcome(comando, r.value)
  {
    if |risultato| < 1 then Err(IndexError(0))
    else if risultato[0] == Sentinel then Ok(Refused(comando, SendFailed))
    else if |risultato| < 3 then Err(IndexError(2))
    else
      var kind := risultato[2];
      if kind == "CALL" then
        if |risultato| < 4 then Err(IndexError(3))
        else if risultato[3] == "-1" then Ok(Refused(comando, "cassetto non valido"))
        else if risultato[3] == "-2" then Ok(Refused(comando, "piazzola non valida"))
        else if risultato[3] == "-5" then Ok(Refused(comando, "login non effettuato o piazzola non attiva"))
        else if risultato[3] == "-6" then Ok(Refused(comando, "modalità automatica non inserita"))
        else Ok(Accepted(comando))
      else if kind == "RETURN" then
        if |risultato| < 4 then Err(IndexError(3))
        else if risultato[3] == "-1" then Ok(Refused(comando, "piazzola vuota"))
        else if risultato[3] == "-2" then Ok(Refused(comando, "piazzola non valida"))
        else Ok(Accepted(comando))
      else Ok(Accepted(comando))
  }

  /** What a request produces, with the number of device exchanges it made. */
  datatype Served = Served(result: Result<Response>, exchanges: nat)

  /** The whole handler for a received `comando`. */
  function Serve(comando: string, device: Device): (s: Served)
    ensures s.exchanges <= MaxAttempts
  {
    var dettagli := ParseModula(comando);
    if |dettagli| < 3 then Served(Err(IndexError(2)), 0)
    else if dettagli[2] !in Kinds then Served(Ok(Refused(comando, Unexpected + comando)), 0)
    else if dettagli[2] == "CALL" then
      var p := LazyPoll(comando, device);
      Served(Translate(comando, p.reply), p.attempts)
    else
      Served(Translate(comando, SendCommand(comando, device, 1)), 1)
  }

  /** `modula_request` for a request whose JSON holds `comando`. */
  method ModulaRequest(comando: string, device: Device)
    returns (risposta: Result<Response>, ghost exchanges: nat)
    ensures risposta == Serve(comando, device).result
    ensures exchanges == Serve(comando, device).exchanges
  {
    var dettagli := ParseModula(comando);
    if |dettagli| < 3 {
      return Err(IndexError(2)), 0;
    }
    if dettagli[2] in Kinds {
      var risultato: Fields;
      if dettagli[2] == "CALL" {
        risultato, exchanges := LazyCall(comando, device);
      } else {
        risultato := SendCommand(comando, device, 1);
        exchanges := 1;
      }
      risposta := Translate(comando, risultato);
    } else {
      risposta := Ok(Refused(comando, Unexpected + comando));
      exchanges := 0;
    }
  }

  // Properties of the translation

  /** The chain is a table lookup consulted after the sentinel: a reply with
      the sentinel at index 0 is a send failure whatever else it holds; a
      reply with a status is refused exactly when (echoed kind, code) is in
      the table, with the table's message, and executed otherwise. */
  lemma TranslateIsTableLookup(comando: string, risultato: Fields)
    requires |risultato| >= 1
    ensures risultato[0] == Sentinel ==> Translate(comando, risultato) == Ok(Refused(comando, SendFailed))
    ensures risultato[0] != Sentinel && |risultato| >= 4 ==>
              Translate(comando, risultato)
              == Ok(if (risultato[2], risultato[3]) in Table
                    then Refused(comando, Table[(risultato[2], risultato[3])])
                    else Accepted(comando))
    ensures risultato[0] != Sentinel && |risultato| == 3 && risultato[2] !in {"CALL", "RETURN"} ==>
              Translate(comando, risultato) == Ok(Accepted(comando))
  {
  }

  // Properties of the handler

  /** A command with fewer than two separators has no kind: the handler
      aborts on index 2 before any exchange. */
  lemma ShortCommandAborts(comando: string, device: Device)
    requires Pipes(comando) < 2
    ensures Serve(comando, device) == Served(Err(IndexError(2)), 0)
  {
  }

  /** A kind outside CALL, RETURN and STATUS yields one error naming the
      command, and the device is not contacted. */
  lemma UnsupportedKindRefused(comando: string, device: Device)
    requires Pipes(comando) >= 2 && ParseModula(comando)[2] !in Kinds
    ensures Serve(comando, device) == Served(Ok(Refused(comando, Unexpected + comando)), 0)
  {
  }

  /** CALL is polled (between 1 and 300 exchanges), RETURN and STATUS are
      sent exactly once; either way the final reply is translated. */
  lemma Routing(comando: string, device: Device)
    requires Pipes(comando) >= 2 && ParseModula(comando)[2] in Kinds
    ensures var s := Serve(comando, device);
            if ParseModula(comando)[2] == "CALL" then
              1 <= s.exchanges <= MaxAttempts
              && s.result == Translate(comando, LazyPoll(comando, device).reply)
            else
              s.exchanges == 1 && s.result == Translate(comando, SendCommand(comando, device, 1))
  {
  }

  /** Every response the handler returns is either "command executed" or
      exactly one error. */
  lemma ServeOneOutcome(comando: string, device: Device)
    requires Serve(comando, device).result.Ok?
    ensures OneOutcome(comando, Serve(comando, device).result.value)
  {
  }

  /** A failed exchange on the first attempt is reported as a send failure
      after that one exchange, for CALL as for the other kinds. */
  lemma FailureReported(comando: string, device: Device)
    requires Pipes(comando) >= 2 && ParseModula(comando)[2] in Kinds
    requires device(1, Utf8.Frame(comando)).Broken?
    ensures Serve(comando, device) == Served(Ok(Refused(comando, SendFailed)), 1)
  {
    ParseSentinel();
    assert SendCommand(comando, device, 1) == [Sentinel];
    if ParseModula(comando)[2] == "CALL" {
      ShortReplyStops(RepliesTo(comando, device), 1);
    }
  }

  /** The final reply is never length-checked before index 2: a one- or
      two-field first reply other than the sentinel aborts on index 2 after
      that one exchange, for RETURN and STATUS and also for CALL, whose
      polling hands a short reply back unchanged. */
  lemma ShortReplyAborts(comando: string, device: Device)
    requires Pipes(comando) >= 2 && ParseModula(comando)[2] in Kinds
    requires |SendCommand(comando, device, 1)| < 3
    requires SendCommand(comando, device, 1)[0] != Sentinel
    ensures Serve(comando, device) == Served(Err(IndexError(2)), 1)
  {
    if ParseModula(comando)[2] == "CALL" {
      ShortReplyStops(RepliesTo(comando, device), 1);
    }
  }

  /** The outcome keys on the kind the device echoes, not on the kind sent:
      a STATUS command answered with a CALL rejection code is reported with
      the CALL message. */
  lemma EchoedKindDecides(comando: string, device: Device)
    requires Pipes(comando) >= 2 && ParseModula(comando)[2] == "STATUS"
    requires |SendCommand(comando, device, 1)| >= 4
    requires SendCommand(comando, device, 1)[0] != Sentinel
    requires SendCommand(comando, device, 1)[2] == "CALL" && SendCommand(comando, device, 1)[3] == "-1"
    ensures Serve(comando, device) == Served(Ok(Refused(comando, "cassetto non valido")), 1)
  {
  }

  // Scenarios

  /** A routed command whose first reply ends the request (always so for
      RETURN and STATUS; for CALL when that reply stops the polling) is
      served from that reply after one exchange. */
  lemma ServedFromFirstReply(comando: string, sent: Fields, device: Device, reply: string, got: Fields,
                             outcome: Result<Response>)
    requires |sent| >= 3 && Clean(sent) && Join(sent) == comando && sent[2] in Kinds
    requires |got| >= 1 && Clean(got) && Join(got) == reply
    requires |reply| <= BufSize && Utf8.IsAscii(reply)
    requires device(1, Utf8.Frame(comando)) == Answer(reply)
    requires sent[2] == "CALL" ==> Stops(got, 1)
    requires Translate(comando, got) == outcome
    ensures Serve(comando, device) == Served(outcome, 1)
  {
    ParseJoin(sent);
    AnswerFields(comando, device, 1, got);
    if sent[2] == "CALL" {
      FirstStopDecides(RepliesTo(comando, device), 1);
    }
  }

  /** The field values the scenarios below use. */
  const ScenarioWords: set<string> := {"01", "02", "05", "09", "CALL", "RETURN", "10", "3", "0", "-2"}

  /** Each scenario word is a clean, short ASCII field. */
  lemma ScenarioWord(w: string)
    requires w in ScenarioWords
    ensures Trimmed(w) && Pipe !in w && Utf8.IsAscii(w) && |w| <= 6
  {
  }

  /** Four fields, each a scenario word. */
  predicate FromWords(fs: Fields) {
    |fs| == 4 && fs[0] in ScenarioWords && fs[1] in ScenarioWords
    && fs[2] in ScenarioWords && fs[3] in ScenarioWords
  }

  /** Four scenario words glued with `|` parse back to themselves and fit
      the read buffer as ASCII text. */
  lemma ScenarioFields(fs: Fields)
    requires FromWords(fs)
    ensures Clean(fs) && |Join(fs)| <= BufSize && Utf8.IsAscii(Join(fs))
  {
    var a, b, c, d := fs[0], fs[1], fs[2], fs[3];
    ScenarioWord(a);
    ScenarioWord(b);
    ScenarioWord(c);
    ScenarioWord(d);
    assert fs == [a, b, c, d];
    JoinFour(a, b, c, d);
    Utf8.AsciiConcat(a, [Pipe]);
    Utf8.AsciiConcat(a + [Pipe], b);
    Utf8.AsciiConcat(a + [Pipe] + b, [Pipe]);
    Utf8.AsciiConcat(a + [Pipe] + b + [Pipe], c);
    Utf8.AsciiConcat(a + [Pipe] + b + [Pipe] + c, [Pipe]);
    Utf8.AsciiConcat(a + [Pipe] + b + [Pipe] + c + [Pipe], d);
  }

  /** "01|02|CALL|10" answered "01|02|CALL|0" at once: executed after one
      exchange. */
  lemma CallDoneAtOnce(comando: string, device: Device, sent: Fields, got: Fields)
    requires sent == ["01", "02", "CALL", "10"] && got == ["01", "02", "CALL", "0"]
    requires comando == Join(sent)
    requires device(1, Utf8.Frame(comando)) == Answer(Join(got))
    ensures Serve(comando, device) == Served(Ok(Accepted(comando)), 1)
  {
    ScenarioFields(sent);
    ScenarioFields(got);
    ServedFromFirstReply(comando, sent, device, Join(got), got, Ok(Accepted(comando)));
  }

  /** "05|09|RETURN|0" answered "05|09|RETURN|-2": refused as an invalid
      bay after one exchange, with no retry. */
  lemma ReturnBayInvalid(comando: string, device: Device, sent: Fields, got: Fields)
    requires sent == ["05", "09", "RETURN", "0"] && got == ["05", "09", "RETURN", "-2"]
    requires comando == Join(sent)
    requires device(1, Utf8.Frame(comando)) == Answer(Join(got))
    ensures Serve(comando, device) == Served(Ok(Refused(comando, "piazzola non valida")), 1)
  {
    ScenarioFields(sent);
    ScenarioFields(got);
    ServedFromFirstReply(comando, sent, device, Join(got), got, Ok(Refused(comando, "piazzola non valida")));
  }

  /** A device answering `busy` at every attempt before `n` and `reply` at
      attempt `n` gives those fields to the polling loop. */
  lemma PolledReplies(comando: string, device: Device, n: nat,
                      pending: Fields, got: Fields)
    requires |pending| >= 1 && Clean(pending) && |Join(pending)| <= BufSize
    requires Utf8.IsAscii(Join(pending))
    requires forall k :: 1 <= k < n ==> device(k, Utf8.Frame(comando)) == Answer(Join(pending))
    requires |got| >= 1 && Clean(got) && |Join(got)| <= BufSize
    requires Utf8.IsAscii(Join(got))
    requires device(n, Utf8.Frame(comando)) == Answer(Join(got))
    ensures forall k :: 1 <= k < n ==> RepliesTo(comando, device)(k) == pending
    ensures RepliesTo(comando, device)(n) == got
  {
    forall k | 1 <= k < n ensures RepliesTo(comando, device)(k) == pending {
      AnswerFields(comando, device, k, pending);
    }
    AnswerFields(comando, device, n, got);
  }

  /** A CALL answered `busy` (a reply that does not stop the polling) up to
      attempt `n` and `reply` at attempt `n`, which stops it, is served from
      `reply` after exactly `n` exchanges. */
  lemma ServedFromPolling(comando: string, sent: Fields, device: Device, n: nat,
                          busy: string, pending: Fields, reply: string, got: Fields,
                          outcome: Result<Response>)
    requires |sent| >= 3 && Clean(sent) && Join(sent) == comando && sent[2] == "CALL"
    requires 1 <= n <= MaxAttempts
    requires |pending| >= 4 && Clean(pending) && Join(pending) == busy && !IsTerminal(pending[3])
    requires |busy| <= BufSize && Utf8.IsAscii(busy)
    requires forall k :: 1 <= k < n ==> device(k, Utf8.Frame(comando)) == Answer(busy)
    requires |got| >= 1 && Clean(got) && Join(got) == reply
    requires |reply| <= BufSize && Utf8.IsAscii(reply)
    requires device(n, Utf8.Frame(comando)) == Answer(reply)
    requires Stops(got, n)
    requires Translate(comando, got) == outcome
    ensures Serve(comando, device) == Served(outcome, n)
  {
    ParseJoin(sent);
    PolledReplies(comando, device, n, pending, got);
    PollEndsAt(RepliesTo(comando, device), n, pending, got);
  }

  /** A CALL of scenario words answered busy ("3") before attempt `n` and,
      at attempt `n`, done ("0") or, on the 300th attempt, busy again, is
      executed after exactly `n` exchanges. */
  lemma CallPolledExecuted(comando: string, device: Device, n: nat, sent: Fields, busy: Fields, last: Fields)
    requires FromWords(sent) && FromWords(busy) && FromWords(last)
    requires sent[2] == "CALL" && busy[3] == "3" && last[0] != Sentinel && last[2] == "CALL"
    requires last[3] == "0" || (last[3] == "3" && n == MaxAttempts)
    requires comando == Join(sent) && 1 <= n <= MaxAttempts
    requires forall k :: 1 <= k < n ==> device(k, Utf8.Frame(comando)) == Answer(Join(busy))
    requires device(n, Utf8.Frame(comando)) == Answer(Join(last))
    ensures Serve(comando, device) == Served(Ok(Accepted(comando)), n)
  {
    ScenarioFields(sent);
    ScenarioFields(busy);
    ScenarioFields(last);
    assert Translate(comando, last) == Ok(Accepted(comando));
    ServedFromPolling(comando, sent, device, n, Join(busy), busy, Join(last), last, Ok(Accepted(comando)));
  }

  /** "01|02|CALL|10" answered busy ("01|02|CALL|3") four times and done
      ("01|02|CALL|0") at the fifth attempt: executed after exactly five
      exchanges. */
  lemma CallDoneAtFifth(comando: string, device: Device, sent: Fields, busy: Fields, done: Fields)
    requires sent == ["01", "02", "CALL", "10"]
    requires busy == ["01", "02", "CALL", "3"] && done == ["01", "02", "CALL", "0"]
    requires comando == Join(sent)
    requires forall k :: 1 <= k < 5 ==> device(k, Utf8.Frame(comando)) == Answer(Join(busy))
    requires device(5, Utf8.Frame(comando)) == Answer(Join(done))
    ensures Serve(comando, device) == Served(Ok(Accepted(comando)), 5)
  {
    CallPolledExecuted(comando, device, 5, sent, busy, done);
  }

  /** "01|02|CALL|10" answered busy ("01|02|CALL|3") at every attempt: given
      up after exactly 300 exchanges. The translation has no timeout case, so
      the response still says the command was executed. */
  lemma CallTimeoutReportedExecuted(comando: string, device: Device, sent: Fields, busy: Fields)
    requires sent == ["01", "02", "CALL", "10"] && busy == ["01", "02", "CALL", "3"]
    requires comando == Join(sent)
    requires forall k :: 1 <= k <= MaxAttempts ==> device(k, Utf8.Frame(comando)) == Answer(Join(busy))
    ensures Serve(comando, device) == Served(Ok(Accepted(comando)), MaxAttempts)
  {
    CallPolledExecuted(comando, device, MaxAttempts, sent, busy, busy);
  }
}
