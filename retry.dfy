/** `lazy_call`: the bounded polling loop used for CALL commands, whose
    effect on the controller is asynchronous. Every cycle makes one exchange;
    the loop stops on a terminal status, on a reply too short to carry a
    status (the transport-failure sentinel among them), or after the 300th
    attempt. The one-second pause between attempts is not modelled. */
module Retry {
  import opened Codec
  import opened DeviceClient

  const MaxAttempts: nat := 300

  /** Status codes that end the polling: success and the four rejections. */
  predicate IsTerminal(code: string) {
    code == "0" || code == "-1" || code == "-2" || code == "-5" || code == "-6"
  }

  /** Whether the loop breaks once attempt `attempt` has returned `data`. */
  predicate Stops(data: Fields, attempt: nat) {
    |data| < 4 || IsTerminal(data[3]) || attempt >= MaxAttempts
  }

  /** The replies of a request, attempt by attempt. */
  type Replies = nat -> Fields

  /** The replies the device gives to the frames of `comando`. */
  function RepliesTo(comando: string, device: Device): Replies {
    (k: nat) => SendCommand(comando, device, k)
  }

  /** The reply the loop returns and the number of exchanges it made. */
  datatype Poll = Poll(reply: Fields, attempts: nat)

  /** The polling run from attempt `first` on: it ends at the first attempt
      whose reply stops the loop, and returns that reply. */
  function PollFrom(replies: Replies, first: nat): (p: Poll)
    requires 1 <= first <= MaxAttempts
    ensures first <= p.attempts <= MaxAttempts
    ensures p.reply == replies(p.attempts)
    ensures Stops(p.reply, p.attempts)
    ensures forall k :: first <= k < p.attempts ==> !Stops(replies(k), k)
    decreases MaxAttempts - first
  {
    if Stops(replies(first), first) then Poll(replies(first), first)
    else PollFrom(replies, first + 1)
  }

  /** The whole run of `lazy_call` for `comando`. */
  function LazyPoll(comando: string, device: Device): (p: Poll)
    ensures 1 <= p.attempts <= MaxAttempts
  {
    PollFrom(RepliesTo(comando, device), 1)
  }

  /** `lazy_call`, with the attempt counter returned as a ghost result. */
  method LazyCall(comando: string, device: Device) returns (data: Fields, ghost attempts: nat)
    ensures data == LazyPoll(comando, device).reply
    ensures attempts == LazyPoll(comando, device).attempts
  {
    ghost var replies := RepliesTo(comando, device);
    var tentativi := 0;
    while true
      invariant 0 <= tentativi < MaxAttempts
      invariant forall k :: 1 <= k <= tentativi ==> !Stops(replies(k), k)
      invariant LazyPoll(comando, device) == PollFrom(replies, tentativi + 1)
      decreases MaxAttempts - tentativi
    {
      tentativi := tentativi + 1;
      data := SendCommand(comando, device, tentativi);
      assert data == replies(tentativi);
      if |data| >= 4 {
        if data[3] == "0" {
          break;
        } else if data[3] == "-1" {
          break;
        } else if data[3] == "-2" {
          break;
        } else if data[3] == "-5" {
          break;
        } else if data[3] == "-6" {
          break;
        } else if tentativi >= MaxAttempts {
          break;
        }
      } else {
        break;
      }
    }
    attempts := tentativi;
  }

  // Properties of the polling run

  /** The run is determined by its first stopping attempt: if attempt `n`
      stops the loop and no earlier one does, the run makes exactly `n`
      exchanges and returns the `n`-th reply. */
  lemma FirstStopDecides(replies: Replies, n: nat)
    requires 1 <= n <= MaxAttempts
    requires Stops(replies(n), n)
    requires forall k :: 1 <= k < n ==> !Stops(replies(k), k)
    ensures PollFrom(replies, 1) == Poll(replies(n), n)
  {
  }

  /** A returned reply that carries a status but not a terminal one means the
      attempt budget was spent: exactly 300 exchanges were made. */
  lemma TimeoutSpendsBudget(replies: Replies)
    requires |PollFrom(replies, 1).reply| >= 4
    requires !IsTerminal(PollFrom(replies, 1).reply[3])
    ensures PollFrom(replies, 1).attempts == MaxAttempts
  {
  }

  /** A reply without a status (fewer than four fields, the failure sentinel
      among them) ends the run at once, at whatever attempt it arrives. */
  lemma ShortReplyStops(replies: Replies, n: nat)
    requires 1 <= n <= MaxAttempts
    requires |replies(n)| < 4
    requires forall k :: 1 <= k < n ==> !Stops(replies(k), k)
    ensures PollFrom(replies, 1) == Poll(replies(n), n)
  {
    FirstStopDecides(replies, n);
  }

  /** The status codes are compared before the counter: a terminal code on the
      300th attempt is returned as that code. */
  lemma TerminalOnLastAttempt(replies: Replies)
    requires forall k :: 1 <= k < MaxAttempts ==> !Stops(replies(k), k)
    requires |replies(MaxAttempts)| >= 4 && IsTerminal(replies(MaxAttempts)[3])
    ensures PollFrom(replies, 1).attempts == MaxAttempts
    ensures IsTerminal(PollFrom(replies, 1).reply[3])
  {
    FirstStopDecides(replies, MaxAttempts);
  }

  /** Polling replies that repeat a non-terminal status before attempt `n`
      and stop the loop at `n` end the run there. */
  lemma PollEndsAt(replies: Replies, n: nat, pending: Fields, got: Fields)
    requires 1 <= n <= MaxAttempts
    requires |pending| >= 4 && !IsTerminal(pending[3])
    requires forall k :: 1 <= k < n ==> replies(k) == pending
    requires replies(n) == got && Stops(got, n)
    ensures PollFrom(replies, 1) == Poll(got, n)
  {
    FirstStopDecides(replies, n);
  }
}
