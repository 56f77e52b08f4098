/**
 * The text-generation service as the rest of the model sees it: a prompt goes
 * in, a reply comes out. The service is an oracle `llm: Prompt -> Reply`
 * handed to every operation that calls it; the fixed instruction wording is
 * not modelled, only the live values each prompt carries.
 */
module Llm {
  import opened Wrappers
  import opened Text
  import opened Records
  import opened Store

  datatype Prompt =
    /** Suggest questions; the user message is the store's CREATE statements. */
    | QuestionsPrompt(schemaText: string)
    /** Write SQL for a question, given the dataset description and the schema. */
    | QueryPrompt(context: string, schemaText: string, question: string)
    /** Write chart code, given the question, a sample of the result and the charting intent. */
    | ChartPrompt(question: string, sample: seq<Record>, intent: string)

  /** What the `llm` helper returns when no output shape is requested. */
  datatype Reply =
    /** The service answered with an `error` object, which is handed back as is. */
    | Refused(error: string)
    /** The content of the first choice. */
    | Answered(content: string)

  /** Why a structured request produced no value. */
  datatype Failure =
    | ServiceError(message: string)
    | MalformedJson(content: string)

  /** The user message shared by the question and query prompts: every CREATE statement, blank-line separated. */
  function SchemaText(schema: seq<TableSchema>): string {
    Join("\n\n", seq(|schema|, i requires 0 <= i < |schema| => schema[i].sql))
  }

  /**
   * The `llm` helper with an output shape: a service error is returned as it
   * is, otherwise the content is parsed as JSON, and a parse failure becomes an
   * error in its turn. `decode` is the JSON parser restricted to the requested shape.
   */
  function Structured(reply: Reply, decode: string -> Option<seq<string>>): (r: Result<seq<string>, Failure>)
    ensures r.Err? <==> reply.Refused? || decode(reply.content).None?
    ensures reply.Refused? ==> r == Err(ServiceError(reply.error))
    ensures r.Ok? ==> reply.Answered? && decode(reply.content) == Some(r.value)
  {
    match reply
    case Refused(e) => Err(ServiceError(e))
    case Answered(c) =>
      match decode(c)
      case None => Err(MalformedJson(c))
      case Some(v) => Ok(v)
  }
}
