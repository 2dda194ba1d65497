/** The message list of ChatInterface.jsx: the greeting it starts with, the
    guard on sending, and the two appends of one exchange. The request to
    the chat endpoint is split into the send and its settlement; its reply
    is an arbitrary string. */
module ChatInterface {

  import opened Wrappers
  import opened Text

  datatype Sender = User | Ai

  datatype Message = Message(sender: Sender, text: string)

  /** The component's state; `pending` is the text of the request in flight. */
  datatype ChatState = ChatState(messages: seq<Message>, input: string, loading: bool, pending: Option<string>)

  const Greeting := "Hello! I am the TATTVA Research Assistant. How can I help you analyze the marine data today?"
  const ErrorReply := "Sorry, there was an error reaching the AI server."

  /** The context `handleSendMessage` sends with every message. */
  const SentContext := ""

  const Initial := ChatState([Message(Ai, Greeting)], "", false, None)

  /** The guard at the top of `handleSendMessage`. */
  predicate CanSend(s: ChatState) {
    Trim(s.input) != "" && !s.loading
  }

  /** The input's `onChange`. */
  function Type(s: ChatState, text: string): (r: ChatState)
    ensures r.input == text && r.messages == s.messages && r.loading == s.loading && r.pending == s.pending
  {
    s.(input := text)
  }

  /** The synchronous part of `handleSendMessage`: when the guard allows it,
      the untrimmed input is appended as a user message and becomes the text
      of the request, which `sendChatMessage` receives together with
      `SentContext`; the input is cleared and loading starts. Otherwise
      nothing changes. */
  function Send(s: ChatState): (r: ChatState)
    ensures IsBlank(s.input) || s.loading ==> r == s
    ensures !IsBlank(s.input) && !s.loading ==>
      && r.messages == s.messages + [Message(User, s.input)]
      && r.input == ""
      && r.loading
      && r.pending == Some(s.input)
  {
    TrimEmptyIff(s.input);
    if !CanSend(s) then s
    else ChatState(s.messages + [Message(User, s.input)], "", true, Some(s.input))
  }

  /** The rest of `handleSendMessage` once the request settles: exactly one
      AI message, the reply or the fixed error text, and loading off. A
      settlement belongs to a request in flight, so without one it changes
      nothing. */
  function Settle(s: ChatState, reply: Result<string, string>): (r: ChatState)
    ensures s.pending.None? ==> r == s
    ensures s.pending.Some? ==>
      && r.messages == s.messages + [Message(Ai, if reply.Success? then reply.value else ErrorReply)]
      && r.input == s.input
      && !r.loading && r.pending.None?
  {
    if s.pending.None? then s
    else
      var text := match reply
        case Success(t) => t
        case Failure(_) => ErrorReply;
      s.(messages := s.messages + [Message(Ai, text)], loading := false, pending := None)
  }

  datatype Event = Typed(text: string) | SendPressed | ReplySettled(reply: Result<string, string>)

  function Step(s: ChatState, e: Event): ChatState {
    match e
    case Typed(text) => Type(s, text)
    case SendPressed => Send(s)
    case ReplySettled(reply) => Settle(s, reply)
  }

  function Run(s: ChatState, es: seq<Event>): ChatState
    decreases |es|
  {
    if |es| == 0 then s else Step(Run(s, es[..|es| - 1]), es[|es| - 1])
  }

  /** Loading exactly while a request is in flight, and then the last message
      is the user's, holding the text that was sent. */
  predicate Inv(s: ChatState) {
    && (s.loading <==> s.pending.Some?)
    && (s.pending.Some? ==> |s.messages| > 0 && s.messages[|s.messages| - 1] == Message(User, s.pending.value))
  }

  lemma StepKeepsInv(s: ChatState, e: Event)
    requires Inv(s)
    ensures Inv(Step(s, e))
    ensures s.messages <= Step(s, e).messages
  {
  }

  /** Whatever is typed, sent and answered, messages are only ever appended:
      earlier messages are never removed, changed or reordered; and the
      invariant holds throughout. */
  lemma {:induction false} RunAppendsOnly(s: ChatState, es: seq<Event>)
    requires Inv(s)
    ensures Inv(Run(s, es))
    ensures s.messages <= Run(s, es).messages
    decreases |es|
  {
    if |es| > 0 {
      RunAppendsOnly(s, es[..|es| - 1]);
      StepKeepsInv(Run(s, es[..|es| - 1]), es[|es| - 1]);
    }
  }

  /** From the start, the greeting stays the first message. */
  lemma GreetingStaysFirst(es: seq<Event>)
    ensures |Run(Initial, es).messages| >= 1
    ensures Run(Initial, es).messages[0] == Message(Ai, Greeting)
  {
    RunAppendsOnly(Initial, es);
  }

  /** A second send while the first is in flight is refused: at most one
      request is outstanding. */
  lemma NoSecondSend(s: ChatState, text: string)
    requires Inv(s) && s.loading
    ensures Send(Type(s, text)) == Type(s, text)
  {
  }
}
