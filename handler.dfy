/**
 * `ask_chatbot`: the request handler. The completion service is a parameter that answers a
 * system prompt and a question with a reply or a failure.
 */
module Handler {
  import opened Wrappers
  import opened Context
  import opened Prompt
  import opened Text

  const DefaultRole: string := "Visitor/Parent"
  const QuestionRequired: string := "Question is required."
  const InternalError: string := "عذراً، حدث خطأ داخلي أثناء معالجة الطلب في خادم البوت."

  /** The request body: malformed (not JSON, or not a JSON object), or its two fields, each `None`
      when absent or null. */
  datatype Body = Malformed | Fields(question: Option<string>, userRole: Option<string>)

  /** What the completion service does with a system prompt and a question. */
  datatype Reply = Replied(text: string) | CompletionFails

  datatype Response = Response(status: int, message: string)

  /** The outcome of reading the body, before any retrieval or completion. */
  datatype Validation = Broken | Rejected(response: Response) | Accepted(question: string, role: string)

  /** Reading the body: a missing, null or empty question is refused with 400, a missing role becomes
      "Visitor/Parent", and a body that cannot be read at all is broken. */
  function Validate(body: Body): (v: Validation)
    ensures v.Broken? <==> body.Malformed?
    ensures v.Rejected? <==> body.Fields? && (body.question.None? || body.question.value == "")
    ensures v.Rejected? ==> v.response == Response(400, QuestionRequired)
    ensures v.Accepted? ==> body.Fields? && body.question == Some(v.question) && v.question != ""
    ensures v.Accepted? ==> v.role == (if body.userRole.Some? then body.userRole.value else DefaultRole)
  {
    match body
    case Malformed => Broken
    case Fields(question, userRole) =>
      var q := if question.Some? then question.value else "";
      if q == "" then Rejected(Response(400, QuestionRequired))
      else Accepted(q, if userRole.Some? then userRole.value else DefaultRole)
  }

  /** The response for the completion service's answer. */
  function Respond(reply: Reply): Response {
    match reply
    case Replied(text) => Response(200, text)
    case CompletionFails => Response(500, InternalError)
  }

  /** Handling one request: validate, gather the context, build the prompt, ask the completion
      service and map its answer; every failure after validation becomes the fixed 500 apology. */
  method AskChatbot(body: Body, knowledge: Knowledge, complete: (string, string) -> Reply)
    returns (resp: Response)
    ensures body.Malformed? ==> resp == Response(500, InternalError)
    ensures body.Fields? && (body.question.None? || body.question.value == "")
      ==> resp == Response(400, QuestionRequired)
    ensures body.Fields? && body.question.Some? && body.question.value != "" ==>
      var q := body.question.value;
      var role := if body.userRole.Some? then body.userRole.value else DefaultRole;
      resp == Respond(complete(BuildSystemPrompt(role, RelevantContext(q, knowledge), q), q))
    ensures resp.status in {200, 400, 500}
  {
    match Validate(body) {
      case Broken =>
        return Response(500, InternalError);
      case Rejected(r) =>
        return r;
      case Accepted(q, role) =>
        var context := FindRelevantContext(q, knowledge);
        var systemPrompt := BuildSystemPrompt(role, context, q);
        var reply := complete(systemPrompt, q);
        resp := Respond(reply);
    }
  }

  /** A request without a role is answered with the general-visitor framing. */
  lemma MissingRoleIsGeneral(question: string, context: string)
    requires question != ""
    ensures Validate(Fields(Some(question), None)) == Accepted(question, DefaultRole)
    ensures IsPrefix(GeneralPreamble, BuildSystemPrompt(DefaultRole, context, question))
  {
    RoleSelectsPreamble(DefaultRole, context, question);
  }
}
