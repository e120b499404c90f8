/**
 * The message store of the chat panel in
 * client/frontend/src/components/AiChat.tsx: `handleSubmit` over the
 * `messages` list and the `isLoading` flag, the multipart form it sends, and
 * the guard of the `ai-message` event handler.
 *
 * The network round trip is replaced by its settled outcome, an input.
 */
module AiChat {
  import opened Wrappers

  // ---------------------------------------------------------------------
  // Data
  // ---------------------------------------------------------------------

  datatype Role = User | Assistant

  /** The `{name, type}` metadata a user message keeps of its attachment. */
  datatype Attachment = Attachment(name: string, mediaType: string)

  /** A browser `File`: its name, media type and bytes. */
  datatype File = File(name: string, mediaType: string, bytes: seq<bv8>)

  /** The `Message` interface, without its clock-derived `id`. */
  datatype Message = Message(role: Role, content: string, file: Option<Attachment>)

  const NoReplyText: string := "Sorry, I couldn't generate a response. Please try again later."

  const FailureText: string :=
    "\U{26A0}\U{FE0F} Sorry, something went wrong while connecting to the server. Please try again."

  /**
   * How the POST round trip settled. `Rejected` stands for anything thrown
   * inside the `try` block and caught by its `catch`: `fetch` rejecting,
   * `response.json()` failing to parse, or reading `data.reply` when the body
   * is the JSON literal `null`. Otherwise a response arrived with its `ok` flag
   * and, when its body was parsed to a value other than `null`, the `reply`
   * field of that value. `None` stands for a `reply` that is absent or a falsy
   * value that is not a string (`null`, `false`, `0`): `||` treats all of them
   * like the empty string.
   */
  datatype Settlement = Rejected | Responded(ok: bool, reply: Option<string>)

  /** The arguments of one `handleSubmit` call. */
  datatype Submission = Submission(message: string, file: Option<File>, isEli5: Option<bool>)

  // ---------------------------------------------------------------------
  // The two messages of one submission
  // ---------------------------------------------------------------------

  /** The optimistic `user` message, appended before the request is sent. */
  function UserMessage(message: string, file: Option<File>): Message {
    var attachment := if file.Some? then Some(Attachment(file.value.name, file.value.mediaType)) else None;
    Message(User, message, attachment)
  }

  /**
   * The content of the `assistant` message: the reply when the request
   * succeeded with a non-empty `reply` (JavaScript's `||` treats "" like a
   * missing field), the no-reply text on any other success, and the failure
   * text when the status was not ok or anything threw.
   */
  function ReplyText(outcome: Settlement): (content: string)
    ensures content != []
    ensures outcome.Rejected? || !outcome.ok ==> content == FailureText
    ensures outcome.Responded? && outcome.ok && outcome.reply.Some? && outcome.reply.value != [] ==>
              content == outcome.reply.value
    ensures outcome.Responded? && outcome.ok && (outcome.reply.None? || outcome.reply.value == []) ==>
              content == NoReplyText
    ensures outcome.Responded? && outcome.ok ==>
              (content == FailureText <==> outcome.reply == Some(FailureText))
  {
    match outcome
    case Rejected => FailureText
    case Responded(ok, reply) =>
      if !ok then FailureText
      else if reply.Some? && reply.value != [] then reply.value
      else NoReplyText
  }

  function AssistantMessage(outcome: Settlement): Message {
    Message(Assistant, ReplyText(outcome), None)
  }

  /** The messages one completed submission appends, in order. */
  function Exchange(s: Submission, outcome: Settlement): seq<Message> {
    [UserMessage(s.message, s.file), AssistantMessage(outcome)]
  }

  /** `m` is the user message that submission `s` appends. */
  ghost predicate IsUserMessageFor(m: Message, s: Submission) {
    && m.role == User
    && m.content == s.message
    && (s.file.None? ==> m.file.None?)
    && (s.file.Some? ==> m.file == Some(Attachment(s.file.value.name, s.file.value.mediaType)))
  }

  /** `m` is the assistant message that a round trip settling as `outcome` appends. */
  ghost predicate IsReplyFor(m: Message, outcome: Settlement) {
    m.role == Assistant && m.content == ReplyText(outcome) && m.file.None?
  }

  /** The message list after a series of completed submissions, from an empty list. */
  function Conversation(history: seq<(Submission, Settlement)>): seq<Message> {
    if history == [] then []
    else
      var n := |history| - 1;
      Conversation(history[..n]) + Exchange(history[n].0, history[n].1)
  }

  /**
   * Every completed submission contributes exactly two messages, at
   * positions 2k and 2k+1: its user message, carrying an attachment exactly
   * when a file was given, then exactly one assistant message for its
   * outcome.
   */
  lemma {:induction false} ConversationShape(history: seq<(Submission, Settlement)>)
    ensures |Conversation(history)| == 2 * |history|
    ensures forall k | 0 <= k < |history| ::
              IsUserMessageFor(Conversation(history)[2 * k], history[k].0)
              && IsReplyFor(Conversation(history)[2 * k + 1], history[k].1)
  {
    if history != [] {
      var n := |history| - 1;
      var prefix := history[..n];
      var before := Conversation(prefix);
      var whole := Conversation(history);
      ConversationShape(prefix);
      assert whole == before + Exchange(history[n].0, history[n].1);
      forall k | 0 <= k < |history|
        ensures IsUserMessageFor(whole[2 * k], history[k].0)
        ensures IsReplyFor(whole[2 * k + 1], history[k].1)
      {
        if k < n {
          assert prefix[k] == history[k];
          assert whole[2 * k] == before[2 * k];
          assert whole[2 * k + 1] == before[2 * k + 1];
        } else {
          assert 2 * k == |before|;
        }
      }
    }
  }

  /** The list is append-only: an earlier conversation is a prefix of every later one. */
  lemma {:induction false} ConversationGrows(history: seq<(Submission, Settlement)>, n: nat)
    requires n <= |history|
    ensures Conversation(history[..n]) <= Conversation(history)
    decreases |history|
  {
    if n < |history| {
      var last := |history| - 1;
      var prefix := history[..last];
      assert prefix[..n] == history[..n];
      ConversationGrows(prefix, n);
      assert Conversation(history) == Conversation(prefix) + Exchange(history[last].0, history[last].1);
    } else {
      assert history[..n] == history;
    }
  }

  // ---------------------------------------------------------------------
  // The outgoing form and the ai-message event
  // ---------------------------------------------------------------------

  datatype FieldValue = Text(text: string) | Blob(file: File)

  datatype FormField = FormField(name: string, value: FieldValue)

  predicate HasField(form: seq<FormField>, name: string) {
    exists i | 0 <= i < |form| :: form[i].name == name
  }

  /**
   * The `FormData` of one submission: always `message` first, `file` only
   * when a file is given, `isEli5` as the text "true" only when the flag is
   * truthy; no field appears twice.
   */
  function BuildForm(message: string, file: Option<File>, isEli5: Option<bool>): (form: seq<FormField>)
    ensures |form| >= 1 && form[0] == FormField("message", Text(message))
    ensures forall i, j | 0 <= i < j < |form| :: form[i].name != form[j].name
    ensures HasField(form, "file") <==> file.Some?
    ensures file.Some? ==> FormField("file", Blob(file.value)) in form
    ensures HasField(form, "isEli5") <==> isEli5 == Some(true)
    ensures forall i | 0 <= i < |form| && form[i].name == "isEli5" :: form[i].value == Text("true")
    ensures forall i | 0 <= i < |form| :: form[i].name in {"message", "file", "isEli5"}
  {
    var head := [FormField("message", Text(message))];
    var withFile := head + if file.Some? then [FormField("file", Blob(file.value))] else [];
    var form := withFile + if isEli5 == Some(true) then [FormField("isEli5", Text("true"))] else [];
    assert file.Some? ==> form[1].name == "file";
    assert isEli5 == Some(true) ==> form[|form| - 1].name == "isEli5";
    form
  }

  /** The `detail` of an `ai-message` event; each member may be missing. */
  datatype EventDetail = EventDetail(message: Option<string>, file: Option<File>, isEli5: Option<bool>)

  /**
   * The guard of the `ai-message` handler: no submission for a missing
   * detail or a missing or empty message; otherwise the detail's message,
   * file and flag are submitted as they are.
   */
  function SubmissionFor(detail: Option<EventDetail>): (r: Option<Submission>)
    ensures r.None? <==> detail.None? || detail.value.message.None? || detail.value.message.value == []
    ensures r.Some? ==> r.value.message == detail.value.message.value && r.value.message != []
    ensures r.Some? ==> r.value.file == detail.value.file && r.value.isEli5 == detail.value.isEli5
  {
    match detail
    case None => None
    case Some(d) =>
      if d.message.None? || d.message.value == [] then None
      else Some(Submission(d.message.value, d.file, d.isEli5))
  }

  // ---------------------------------------------------------------------
  // The component state
  // ---------------------------------------------------------------------

  /** The `messages` and `isLoading` state of one mounted chat panel. */
  class ChatView {
    var messages: seq<Message>
    var isLoading: bool

    constructor ()
      ensures messages == [] && !isLoading
    {
      messages := [];
      isLoading := false;
    }

    /**
     * The part of `handleSubmit` before the request is awaited: raise the
     * loading flag, append the user message, build the form to send.
     */
    method BeginSubmit(message: string, file: Option<File>, isEli5: Option<bool>)
      returns (form: seq<FormField>)
      modifies this
      ensures isLoading
      ensures messages == old(messages) + [UserMessage(message, file)]
      ensures IsUserMessageFor(messages[|messages| - 1], Submission(message, file, isEli5))
      ensures form == BuildForm(message, file, isEli5)
    {
      isLoading := true;
      var attachment := if file.Some? then Some(Attachment(file.value.name, file.value.mediaType)) else None;
      var userMessage := Message(User, message, attachment);
      messages := messages + [userMessage];
      var formData := [FormField("message", Text(message))];
      if file.Some? {
        formData := formData + [FormField("file", Blob(file.value))];
      }
      if isEli5 == Some(true) {
        formData := formData + [FormField("isEli5", Text("true"))];
      }
      form := formData;
    }

    /**
     * The part of `handleSubmit` after the round trip settles: append one
     * assistant message (the `try` or the `catch` path) and clear the
     * loading flag (the `finally` block).
     */
    method Settle(outcome: Settlement)
      modifies this
      ensures !isLoading
      ensures messages == old(messages) + [AssistantMessage(outcome)]
      ensures IsReplyFor(messages[|messages| - 1], outcome)
    {
      messages := messages + [Message(Assistant, ReplyText(outcome), None)];
      isLoading := false;
    }

    /** `handleSubmit(message, file, isEli5)`, as one step whose round trip settles as `outcome`. */
    method HandleSubmit(message: string, file: Option<File>, isEli5: Option<bool>, outcome: Settlement)
      returns (form: seq<FormField>)
      modifies this
      ensures !isLoading
      ensures messages == old(messages) + Exchange(Submission(message, file, isEli5), outcome)
      ensures old(messages) <= messages && |messages| == |old(messages)| + 2
      ensures form == BuildForm(message, file, isEli5)
    {
      form := BeginSubmit(message, file, isEli5);
      Settle(outcome);
    }

    /** The `ai-message` handler: submit the event's payload unless the guard rejects it. */
    method OnAiMessage(detail: Option<EventDetail>, outcome: Settlement)
      returns (form: Option<seq<FormField>>)
      modifies this
      ensures SubmissionFor(detail).None? ==>
                form.None? && messages == old(messages) && isLoading == old(isLoading)
      ensures SubmissionFor(detail).Some? ==>
                var s := SubmissionFor(detail).value;
                && form == Some(BuildForm(s.message, s.file, s.isEli5))
                && messages == old(messages) + Exchange(s, outcome)
                && !isLoading
    {
      if detail.None? || detail.value.message.None? || detail.value.message.value == [] {
        return None;
      }
      var d := detail.value;
      var sent := HandleSubmit(d.message.value, d.file, d.isEli5, outcome);
      form := Some(sent);
    }
  }

  /**
   * A question without a file whose reply comes back leaves exactly the
   * question and the reply in a fresh panel.
   */
  /**
   * A fresh panel after `handleSubmit` has completed once for each entry of
   * `history`, in order, holds exactly `Conversation(history)`.
   */
  method Replay(history: seq<(Submission, Settlement)>) returns (view: ChatView)
    ensures fresh(view)
    ensures view.messages == Conversation(history)
    ensures !view.isLoading
  {
    view := new ChatView();
    for i := 0 to |history|
      invariant view.messages == Conversation(history[..i])
      invariant !view.isLoading
    {
      var s := history[i].0;
      var form := view.HandleSubmit(s.message, s.file, s.isEli5, history[i].1);
      assert history[..i + 1][..i] == history[..i];
    }
    assert history[..|history|] == history;
  }

  method CholesterolExchange() {
    var view := new ChatView();
    var question := "What is my cholesterol level?";
    var answer := "Your cholesterol is normal.";
    var form := view.HandleSubmit(question, None, Some(false), Responded(true, Some(answer)));
    assert view.messages == [Message(User, question, None), Message(Assistant, answer, None)];
    assert form == [FormField("message", Text(question))];
    assert !view.isLoading;
  }
}
