/**
 * What a handler sends back. JSON bodies are not modelled byte for byte: a reply is its status
 * code, its `success` flag, its optional `message` and its `data`; a handler that calls
 * `next(error)` instead produces a `Forwarded` fault for the error-handling middleware.
 */
module Http {
  import opened Basics
  import opened Tables

  /** Why a handler gave up and called `next(error)`. */
  datatype Fault =
    | DatabaseFault(error: DbError)   // a query rejected by the schema
    | UpstreamFault                   // the chat completion call failed
    | TokenFault                      // a token error other than a bad or expired token

  /** The `data` object of a successful reply. */
  datatype Data =
    | NoData
    | ConversationData(conversation: Conversation)
    | ConversationsData(conversations: seq<Listing>)
    | MessagesData(messages: seq<Message>)
    | AnswerData(content: string, role: Role)
    | SessionData(user: UserInfo, token: string)
    | ProfileData(user: UserInfo)

  datatype Response =
    | Reply(status: nat, success: bool, message: Option<string>, data: Data)
    | Forwarded(fault: Fault)

  /** `res.status(status).json({ success: false, message })`. */
  function Fail(status: nat, message: string): Response {
    Reply(status, false, Some(message), NoData)
  }

  /** `res.status(status).json({ success: true, data })`. */
  function Done(status: nat, data: Data): Response {
    Reply(status, true, None, data)
  }

  const INTERNAL_SERVER_ERROR := "Internal Server Error"

  /**
   * The error-handling middleware: every forwarded fault becomes a 500 reply, whatever its cause,
   * and a reply a handler already sent goes out as it is.
   */
  function HandleErrors(r: Response): (out: Response)
    ensures out.Reply?
    ensures r.Forwarded? <==> out == Fail(500, INTERNAL_SERVER_ERROR) && r != out
    ensures r.Reply? ==> out == r
  {
    if r.Forwarded? then Fail(500, INTERNAL_SERVER_ERROR) else r
  }
}
