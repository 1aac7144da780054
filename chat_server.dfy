/**
 * The request translation inside the chat proxy's `POST /api/chat` handler
 * (backend/chat_server.py, `chat_endpoint`): the check for a configured API
 * key, the mapping of the widget's chat history to the model's history
 * format, and the composition of the message sent to the model. The model
 * call itself is not part of this module: the handler's result here is what
 * it would hand to the model.
 */
module ChatServer {
  import opened Wrappers
  import opened PyStr

  /** `ChatMessagePart`: one text part of a message. */
  datatype MessagePart = MessagePart(text: string)

  /** `ChatMessage`: a turn of the conversation as the widget sends it. */
  datatype ChatMessage = ChatMessage(role: string, parts: seq<MessagePart>)

  /** `ChatRequest`: the body of `POST /api/chat`. */
  datatype ChatRequest = ChatRequest(history: seq<ChatMessage>, message: string,
                                     systemInstruction: Option<string>)

  /** A `{"text": ...}` part in the model's history format. */
  datatype ModelPart = ModelPart(text: string)

  /** A `{"role": ..., "parts": [...]}` entry in the model's history format. */
  datatype ModelContent = ModelContent(role: string, parts: seq<ModelPart>)

  /** An `HTTPException` raised by the handler. */
  datatype HttpError = HttpError(status: int, detail: string)

  /** What the handler passes on: the history to start the chat with and the message to send. */
  datatype Prepared = Prepared(history: seq<ModelContent>, message: string)

  const MissingKeyDetail: string := "GEMINI_API_KEY not configured on server."
  const QuestionSeparator: string := "\n\nUser Question: "

  /** Python truthiness of an optional string: present and non-empty. */
  predicate Truthy(s: Option<string>) {
    s.Some? && s.value != ""
  }

  /** The model only knows the roles `user` and `model`; every other role is the model's. */
  function ModelRole(role: string): (r: string)
    ensures r == "user" || r == "model"
    ensures r == "user" <==> role == "user"
  {
    if role == "user" then "user" else "model"
  }

  /** The parts of one message, in order, as `{"text": ...}` parts. */
  function ModelParts(parts: seq<MessagePart>): seq<ModelPart> {
    seq(|parts|, j requires 0 <= j < |parts| => ModelPart(parts[j].text))
  }

  /** One message of the request history in the model's format. */
  function ModelMessage(m: ChatMessage): ModelContent {
    ModelContent(ModelRole(m.role), ModelParts(m.parts))
  }

  /** The request history in the model's format, message by message. */
  function ModelHistory(history: seq<ChatMessage>): seq<ModelContent> {
    seq(|history|, i requires 0 <= i < |history| => ModelMessage(history[i]))
  }

  /** Builds the model's history by appending one translated entry per request message. */
  method TranslateHistory(history: seq<ChatMessage>) returns (out: seq<ModelContent>)
    ensures |out| == |history|
    ensures forall i :: 0 <= i < |history| ==>
      (out[i].role == "user" || out[i].role == "model")
      && (out[i].role == "user" <==> history[i].role == "user")
      && |out[i].parts| == |history[i].parts|
      && forall j :: 0 <= j < |history[i].parts| ==> out[i].parts[j].text == history[i].parts[j].text
    ensures out == ModelHistory(history)
  {
    out := [];
    for i := 0 to |history|
      invariant |out| == i
      invariant forall k :: 0 <= k < i ==> out[k] == ModelMessage(history[k])
    {
      var msg := history[i];
      var role := if msg.role == "user" then "user" else "model";
      var parts := seq(|msg.parts|, j requires 0 <= j < |msg.parts| => ModelPart(msg.parts[j].text));
      out := out + [ModelContent(role, parts)];
    }
  }

  /** A model-format entry read back as a request message. */
  function RequestMessage(c: ModelContent): ChatMessage {
    ChatMessage(c.role, seq(|c.parts|, j requires 0 <= j < |c.parts| => MessagePart(c.parts[j].text)))
  }

  /**
   * The translation loses nothing but the role names: reading a translated
   * history back gives the original one exactly when every role already was
   * `user` or `model`.
   */
  lemma HistoryRoundTrip(history: seq<ChatMessage>)
    ensures var back := seq(|history|, i requires 0 <= i < |history| => RequestMessage(ModelHistory(history)[i]));
      (back == history) <==> forall i :: 0 <= i < |history| ==> history[i].role in {"user", "model"}
  {
    var t := ModelHistory(history);
    var back := seq(|history|, i requires 0 <= i < |history| => RequestMessage(t[i]));
    forall i | 0 <= i < |history|
      ensures back[i].parts == history[i].parts
      ensures back[i].role == history[i].role <==> history[i].role in {"user", "model"}
    {
      assert back[i] == RequestMessage(ModelMessage(history[i]));
    }
    if forall i :: 0 <= i < |history| ==> history[i].role in {"user", "model"} {
      forall i | 0 <= i < |history| ensures back[i] == history[i] {
      }
    } else {
      var i :| 0 <= i < |history| && history[i].role !in {"user", "model"};
      assert back[i].role != history[i].role;
    }
  }

  /**
   * The message sent to the model: the user's message alone, or, with a
   * non-empty system instruction, the instruction, a blank line and the
   * message labelled as the user's question.
   */
  function FinalMessage(request: ChatRequest): (m: string)
    ensures EndsWith(m, request.message)
    ensures !Truthy(request.systemInstruction) ==> m == request.message
    ensures Truthy(request.systemInstruction) ==>
      m == request.systemInstruction.value + QuestionSeparator + request.message
  {
    if Truthy(request.systemInstruction)
    then request.systemInstruction.value + QuestionSeparator + request.message
    else request.message
  }

  /**
   * With an instruction, the message sent splits back into the instruction
   * and the user's question, so neither is lost.
   */
  lemma FinalMessageSplits(request: ChatRequest)
    requires Truthy(request.systemInstruction)
    ensures var m, si := FinalMessage(request), request.systemInstruction.value;
      && StartsWith(m, si + QuestionSeparator)
      && m[|si + QuestionSeparator|..] == request.message
      && |m| == |si| + |QuestionSeparator| + |request.message|
  {
    var si := request.systemInstruction.value;
    var m := FinalMessage(request);
    assert m[..|si + QuestionSeparator|] == si + QuestionSeparator;
  }

  /**
   * `chat_endpoint` up to the model call: an HTTP 500 error when no API key
   * is configured, otherwise the translated history and the final message.
   */
  method ChatEndpoint(apiKey: Option<string>, request: ChatRequest) returns (r: Result<Prepared, HttpError>)
    ensures r.Failure? <==> !Truthy(apiKey)
    ensures r.Failure? ==> r.error == HttpError(500, MissingKeyDetail)
    ensures r.Success? ==> r.value.history == ModelHistory(request.history)
    ensures r.Success? ==> r.value.message == FinalMessage(request)
  {
    if !Truthy(apiKey) {
      return Failure(HttpError(500, MissingKeyDetail));
    }
    var history := TranslateHistory(request.history);
    var finalMessage := request.message;
    if Truthy(request.systemInstruction) {
      finalMessage := request.systemInstruction.value + QuestionSeparator + request.message;
    }
    r := Success(Prepared(history, finalMessage));
  }
}
