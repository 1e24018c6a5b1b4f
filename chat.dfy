// The chat view's state (front/src/components/Chat.jsx:6-8) and the
// handlers that change it: sendMessage (91-117), clearChat (119-121) and
// the input box's onChange (219-227).
//
// sendMessage is asynchronous: it runs up to the `await` of the POST,
// and the rest of it runs when the request settles. The two halves are
// Send and Settle here; SendMessage runs them back to back, and anything
// else (ClearChat, say) may run between them. The request itself is not
// modelled: its outcome is a parameter of Settle.
module Chat {
  import opened Wrappers
  import opened JsText
  import opened Format

  datatype Role = User | Assistant

  /** `{ role, content, formattedContent }`; user messages and errors have no formatted content. */
  datatype Message = Message(role: Role, content: string, formatted: Option<seq<Element>>)

  /** How the POST settled: `res.data.reply`, or the caught error's message. */
  datatype Outcome = Ok(reply: string) | Err(message: string)

  /** The guard of sendMessage: a non-blank input and no request in flight. */
  predicate Accepts(input: string, isLoading: bool) {
    !IsBlank(input) && !isLoading
  }

  /**
   * The assistant's message for an outcome: a well-formed assistant
   * message, with formatted content exactly when the request succeeded.
   */
  function Answer(outcome: Outcome): (m: Message)
    ensures m.role == Assistant && WellFormed(m)
    ensures m.formatted.Some? <==> outcome.Ok?
  {
    match outcome
    case Ok(reply) => Message(Assistant, reply, Some(Formatted(reply)))
    case Err(message) =>
      assert StartsWith("Error: " + message, "Error: ");
      Message(Assistant, "Error: " + message, None)
  }

  /**
   * What every message in the list looks like: a user message is a
   * non-blank prompt without formatted content; an assistant message with
   * formatted content carries exactly the formatting of its text, and one
   * without is an error report.
   */
  predicate WellFormed(m: Message) {
    match m.role
    case User => !IsBlank(m.content) && m.formatted.None?
    case Assistant =>
      match m.formatted
      case Some(elements) => elements == Formatted(m.content)
      case None => StartsWith(m.content, "Error: ")
  }

  class ChatView {
    var messages: seq<Message>
    var input: string
    var isLoading: bool

    /**
     * While a request is in flight the input box is disabled and was
     * cleared by the send, so it stays empty; every message is well formed.
     */
    ghost predicate Valid()
      reads this
    {
      && (isLoading ==> input == "")
      && forall i :: 0 <= i < |messages| ==> WellFormed(messages[i])
    }

    /** The initial state: no messages, an empty input, not loading. */
    constructor()
      ensures messages == [] && input == "" && !isLoading
      ensures Valid()
    {
      messages := [];
      input := "";
      isLoading := false;
    }

    /** Typing into the input box; a disabled box (while loading) takes no input. */
    method SetInput(text: string)
      requires Valid()
      modifies this
      ensures Valid()
      ensures input == (if old(isLoading) then old(input) else text)
      ensures messages == old(messages) && isLoading == old(isLoading)
    {
      if !isLoading {
        input := text;
      }
    }

    /**
     * sendMessage up to the `await`: unless the guard refuses, the input
     * becomes a user message, the box is cleared and loading starts; the
     * prompt sent is the input as typed. A refused send changes nothing.
     */
    method Send() returns (prompt: Option<string>)
      requires Valid()
      modifies this
      ensures Valid()
      ensures prompt.Some? <==> old(Accepts(input, isLoading))
      ensures prompt.None? ==> messages == old(messages) && input == old(input) && isLoading == old(isLoading)
      ensures prompt.Some? ==>
        && prompt.value == old(input)
        && messages == old(messages) + [Message(User, old(input), None)]
        && input == "" && isLoading
    {
      if IsBlank(input) || isLoading {
        return None;
      }
      prompt := Some(input);
      messages := messages + [Message(User, input, None)];
      input := "";
      isLoading := true;
    }

    /**
     * sendMessage after the `await`: the reply (formatted) or the error
     * is appended to the list as it stands now, and loading ends.
     */
    method Settle(outcome: Outcome)
      requires Valid()
      modifies this
      ensures Valid()
      ensures messages == old(messages) + [Answer(outcome)]
      ensures input == old(input) && !isLoading
    {
      var answer;
      match outcome {
        case Ok(reply) =>
          var formattedContent := FormatResponse(reply);
          answer := Message(Assistant, reply, Some(formattedContent));
        case Err(message) =>
          answer := Message(Assistant, "Error: " + message, None);
          assert StartsWith(answer.content, "Error: ");
      }
      assert answer == Answer(outcome) && WellFormed(answer);
      messages := messages + [answer];
      isLoading := false;
    }

    /**
     * sendMessage with nothing happening while the request is in flight:
     * an accepted send adds exactly the user message and the answer, and
     * leaves the box empty and loading over; a refused one changes nothing.
     */
    method SendMessage(outcome: Outcome)
      requires Valid()
      modifies this
      ensures Valid()
      ensures !old(Accepts(input, isLoading)) ==>
        messages == old(messages) && input == old(input) && isLoading == old(isLoading)
      ensures old(Accepts(input, isLoading)) ==>
        && messages == old(messages) + [Message(User, old(input), None)] + [Answer(outcome)]
        && input == "" && !isLoading
    {
      ghost var before := messages;
      ghost var typed := input;
      var prompt := Send();
      if prompt.Some? {
        Settle(outcome);
      }
    }

    /** clearChat: the list empties; the input and the loading state stay. */
    method ClearChat()
      requires Valid()
      modifies this
      ensures Valid()
      ensures messages == [] && input == old(input) && isLoading == old(isLoading)
    {
      messages := [];
    }
  }

  /**
   * A clear while a request is in flight does not stop it: the answer
   * lands in the emptied list, alone.
   */
  method ClearWhilePending(view: ChatView, outcome: Outcome)
    requires view.Valid() && view.isLoading
    modifies view
    ensures view.Valid()
    ensures view.messages == [Answer(outcome)] && view.input == "" && !view.isLoading
  {
    view.ClearChat();
    view.Settle(outcome);
  }
}
