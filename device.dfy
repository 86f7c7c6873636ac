/** One round trip with the storage controller (`send_command`). The socket
    is replaced by an oracle: for every frame the bridge sends, the device
    either yields the bytes a single 30-byte read returns, or the exchange
    fails somewhere (socket creation, connect, send, read or close). */
module DeviceClient {
  import opened Codec
  import opened Utf8

  /** Size of the single read of the reply. */
  const BufSize: nat := 30

  /** Reply synthesized locally when the exchange fails. */
  const Sentinel: string := "-99"

  /** What one socket round trip yields. */
  datatype Link = Received(data: seq<Byte>) | Broken

  /** The controller as the bridge sees it: its answer to the frame sent at
      the given attempt of the current request. */
  type Device = (nat, seq<Byte>) -> Link

  /** The text of the reply to `comando` at `attempt`: the first `BufSize`
      bytes of what the device sent, decoded as UTF-8; `None` when the
      exchange failed or the bytes are not valid UTF-8. */
  function ReplyText(comando: string, device: Device, attempt: nat): (r: Option<string>)
    ensures device(attempt, Frame(comando)).Broken? ==> r.None?
    ensures r.Some? ==> |r.value| <= BufSize
  {
    match device(attempt, Frame(comando))
    case Broken => None
    case Received(data) =>
      var read := if |data| <= BufSize then data else data[..BufSize];
      Decode(read)
  }

  /** `send_command`: the parsed reply, or the parsed sentinel on failure. */
  function SendCommand(comando: string, device: Device, attempt: nat): (r: Fields)
    ensures ReplyText(comando, device, attempt).None? ==> r == [Sentinel]
    ensures ReplyText(comando, device, attempt).Some? ==>
              |r| == Pipes(ReplyText(comando, device, attempt).value) + 1
  {
    match ReplyText(comando, device, attempt)
    case None => ParseSentinel(); ParseModula(Sentinel)
    case Some(text) => ParseModula(text)
  }

  /** Whatever the device does, the result has clean fields. */
  lemma SendCommandClean(comando: string, device: Device, attempt: nat)
    ensures Clean(SendCommand(comando, device, attempt))
  {
  }

  /** The answer a well-behaved device gives: the UTF-8 bytes of `text`. */
  function Answer(text: string): Link {
    Received(Encode(text))
  }

  /** A reply that fits the read buffer is parsed exactly as sent. */
  lemma AnswerParsed(comando: string, device: Device, attempt: nat, text: string)
    requires device(attempt, Frame(comando)) == Answer(text)
    requires |Encode(text)| <= BufSize
    ensures SendCommand(comando, device, attempt) == ParseModula(text)
  {
    DecodeEncode(text);
  }

  /** A device answering with clean ASCII fields that fit the buffer is
      understood field for field. */
  lemma AnswerFields(comando: string, device: Device, attempt: nat, fs: seq<string>)
    requires |fs| >= 1
    requires Clean(fs)
    requires IsAscii(Join(fs))
    requires |Join(fs)| <= BufSize
    requires device(attempt, Frame(comando)) == Answer(Join(fs))
    ensures SendCommand(comando, device, attempt) == fs
  {
    EncodeAscii(Join(fs));
    AnswerParsed(comando, device, attempt, Join(fs));
    ParseJoin(fs);
  }
}
