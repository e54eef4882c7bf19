/** Room chat: the typed text is trimmed, dropped when empty, cut to 80 characters and sent to
    everyone with the sender's nickname; received and system messages become display lines.
    A send waits one frame, and a second request while one is waiting is ignored. The input
    field's focus handling, the scroll view and the RPC transport are not modelled. */
module Chat {
  import opened Wrappers
  import opened Text

  const MaxLength := 80

  /** A ReceiveMessage call sent to all clients. */
  datatype ChatRpc = ChatRpc(sender: string, message: string)

  /** The message TrySend sends for the typed text, if any. */
  function Normalize(input: string): Option<string> {
    var t := Trim(input);
    if t == [] then None
    else if |t| > MaxLength then Some(t[..MaxLength])
    else Some(t)
  }

  /** Blank input sends nothing; otherwise the message is the trimmed text, cut to its first 80
      characters, so it is never longer than 80, never empty and never starts with white space. */
  lemma NormalizeSpec(input: string)
    ensures Normalize(input).None? <==> AllWhiteSpace(input)
    ensures Normalize(input).Some? ==>
              var m := Normalize(input).value;
              0 < |m| <= MaxLength && m <= Trim(input) && !IsWhiteSpace(m[0])
              && (|Trim(input)| <= MaxLength ==> m == Trim(input))
              && (|Trim(input)| > MaxLength ==> |m| == MaxLength)
  {
    TrimEmpty(input);
    var i, j := TrimSlice(input);
  }

  /** A message that was not cut is sent again unchanged when typed again. */
  lemma NormalizeShortStable(input: string)
    requires Normalize(input).Some? && |Trim(input)| <= MaxLength
    ensures Normalize(Normalize(input).value) == Normalize(input)
  {
    TrimIdempotent(input);
  }

  /** Normalize is not idempotent: when the 80-character cut ends in white space, typing the
      sent message again sends a shorter one. */
  lemma NormalizeCutNotIdempotent(input: string)
    requires |Trim(input)| > MaxLength && IsWhiteSpace(Trim(input)[MaxLength - 1])
    ensures Normalize(input).Some? && |Normalize(input).value| == MaxLength
    ensures Normalize(Normalize(input).value).Some? && |Normalize(Normalize(input).value).value| < MaxLength
  {
    var t := Trim(input);
    var i0, j0 := TrimSlice(input);
    assert t[0] == input[i0];
    var m := t[..MaxLength];
    assert !IsWhiteSpace(m[0]) && IsWhiteSpace(m[MaxLength - 1]);
    var i, j := TrimSlice(m);
    assert i == 0;
    assert j < MaxLength;
  }

  /** "sender : message". */
  function ChatLine(sender: string, message: string): string {
    sender + " : " + message
  }

  /** "[SYSTEM] : message". */
  function SystemLine(message: string): string {
    "[SYSTEM] : " + message
  }

  /** The message can be read back from a chat line, and a system line is exactly the chat line
      of a sender named "[SYSTEM]": a player with that nickname writes lines that look like
      system messages. */
  lemma LineSpec(sender: string, message: string)
    ensures ChatLine(sender, message)[..|sender|] == sender
    ensures ChatLine(sender, message)[|sender| + 3..] == message
    ensures SystemLine(message) == ChatLine("[SYSTEM]", message)
  {
    assert ChatLine(sender, message) == sender + (" : " + message);
  }

  class ChatManager {
    var inputText: string
    /** A send is waiting for the next frame (the `_sendRoutine` coroutine exists). */
    var pending: bool
    var outbox: seq<ChatRpc>
    var lines: seq<string>
    /** Whether the input field, and the content, prefab and scroll view, are assigned. */
    const hasInputField: bool
    const hasOutput: bool

    constructor (hasInputField: bool, hasOutput: bool)
      ensures this.hasInputField == hasInputField && this.hasOutput == hasOutput
      ensures inputText == [] && !pending && outbox == [] && lines == []
    {
      this.hasInputField, this.hasOutput := hasInputField, hasOutput;
      inputText, pending, outbox, lines := [], false, [], [];
    }

    /** Schedules a send unless one is already waiting. */
    method StartSendRoutine()
      modifies this
      ensures pending
      ensures inputText == old(inputText) && outbox == old(outbox) && lines == old(lines)
    {
      if pending {
        return;
      }
      pending := true;
    }

    /** Enter outside the focused field, and the end of an edit, request a send. */
    method OnEnterPerformed(isFocused: bool)
      modifies this
      ensures pending == if hasInputField && !isFocused then true else old(pending)
      ensures inputText == old(inputText) && outbox == old(outbox) && lines == old(lines)
    {
      if !hasInputField {
        return;
      }
      if isFocused {
        return;
      }
      StartSendRoutine();
    }

    method OnEndEdit()
      modifies this
      ensures pending == (hasInputField || old(pending))
      ensures inputText == old(inputText) && outbox == old(outbox) && lines == old(lines)
    {
      if !hasInputField {
        return;
      }
      StartSendRoutine();
    }

    /** The waiting send, one frame later: TrySend, then nothing is waiting any more. */
    method WaitSend(nickName: string)
      requires pending
      modifies this
      ensures !pending && lines == old(lines)
      ensures hasInputField && hasOutput && Normalize(old(inputText)).Some? ==>
                outbox == old(outbox) + [ChatRpc(nickName, Normalize(old(inputText)).value)] && inputText == []
      ensures !(hasInputField && hasOutput && Normalize(old(inputText)).Some?) ==>
                outbox == old(outbox) && inputText == old(inputText)
    {
      TrySend(nickName);
      pending := false;
    }

    /** Sends the normalised input and clears the field; blank input is kept and not sent. */
    method TrySend(nickName: string)
      modifies this
      ensures pending == old(pending) && lines == old(lines)
      ensures hasInputField && hasOutput && Normalize(old(inputText)).Some? ==>
                outbox == old(outbox) + [ChatRpc(nickName, Normalize(old(inputText)).value)] && inputText == []
      ensures !(hasInputField && hasOutput && Normalize(old(inputText)).Some?) ==>
                outbox == old(outbox) && inputText == old(inputText)
    {
      if !hasInputField || !hasOutput {
        return;
      }
      var message := Trim(inputText);
      if message == [] {
        return;
      }
      if |message| > MaxLength {
        message := message[..MaxLength];
      }
      outbox := outbox + [ChatRpc(nickName, message)];
      inputText := [];
    }

    method AddSystemMessage(message: string)
      modifies this
      ensures lines == if hasOutput then old(lines) + [SystemLine(message)] else old(lines)
      ensures inputText == old(inputText) && outbox == old(outbox) && pending == old(pending)
    {
      if !hasOutput {
        return;
      }
      lines := lines + [SystemLine(message)];
    }

    /** Received on every client; it instantiates the message prefab unguarded, so the output
        objects must be assigned. */
    method ReceiveMessage(sender: string, message: string)
      requires hasOutput
      modifies this
      ensures lines == old(lines) + [ChatLine(sender, message)]
      ensures inputText == old(inputText) && outbox == old(outbox) && pending == old(pending)
    {
      lines := lines + [ChatLine(sender, message)];
    }
  }
}
