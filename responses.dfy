/** The parts of the completion provider's response objects that the bot looks at.
    `responses.create` itself is a foreign network call; it is represented by the
    value it produces for one request. */
module Responses {

  datatype Option<T> = None | Some(value: T)

  /** One content part of a `message` output item. Only `output_text` parts carry
      reply text; every other part type (a refusal, say) is `OtherPart`. */
  datatype ContentPart = OutputText(text: string) | OtherPart

  /** One item of `response.output`, told apart by its `type` field. */
  datatype OutputItem =
    | WebSearchCall
    | Message(content: seq<ContentPart>)
    | OtherItem

  /** What one call of `client.responses.create` does: it returns a response with an
      `id` and an `output` list (which may be None), or it raises. */
  datatype Outcome =
    | Success(id: string, output: Option<seq<OutputItem>>)
    | Failure
}
