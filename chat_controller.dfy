/**
 * The chat handlers of src/routes/chat/chatCtrl.js. Each runs after `authenticate`, so the caller
 * is the `req.user` the gate attached: a `UserInfo` here. The chat completion call is a parameter
 * `complete` from the prompt to its outcome.
 */
module ChatController {
  import opened Basics
  import opened Tables
  import opened Chats
  import opened Http

  const SYSTEM_PROMPT := "You are a helpful assistant."
  const MESSAGE_REQUIRED := "Message is required"
  const CONVERSATION_ID_REQUIRED := "Conversation ID is required"
  const NOT_FOUND := "Conversation not found or not owned by user"
  const DELETED := "Conversation deleted successfully"

  /** One `{ role, content }` entry of the prompt. */
  datatype Turn = Turn(role: Role, content: string)

  /** What the chat completion call does: throws, or answers with `choices[0].message`. */
  datatype Completion = Failed | Completed(role: Role, content: string)

  /** `conversationId` is truthy: present and not 0. */
  predicate Given(conversationId: Option<int>) {
    conversationId.Some? && conversationId.value != 0
  }

  /** `previousMessages.map(msg => ({ role: msg.role, content: msg.message }))`. */
  function Turns(messages: seq<Message>): (r: seq<Turn>)
    ensures |r| == |messages|
    ensures forall i :: 0 <= i < |r| ==> r[i] == Turn(messages[i].role, messages[i].text)
  {
    if |messages| == 0 then []
    else [Turn(messages[0].role, messages[0].text)] + Turns(messages[1..])
  }

  /** `formattedMessages`: the system message, the history in order, then the new user message. */
  function Prompt(history: seq<Message>, message: string): (r: seq<Turn>)
    ensures |r| == |history| + 2
    ensures r[0] == Turn(System, SYSTEM_PROMPT)
    ensures forall i :: 0 <= i < |history| ==> r[i + 1] == Turn(history[i].role, history[i].text)
    ensures r[|r| - 1] == Turn(User, message)
  {
    [Turn(System, SYSTEM_PROMPT)] + Turns(history) + [Turn(User, message)]
  }

  // ---------------------------------------------------------------- sendMessage

  /** What `sendMessage` answers, the prompt it passed to the completion call (if it made one), and the store after it. */
  datatype Exchange = Exchange(response: Response, prompt: Option<seq<Turn>>, store: Store)

  /**
   * The outcome of `sendMessage` by `userId` on store `s`: the completion is asked for exactly when
   * the user message could be stored; otherwise nothing changes, and the only replies are the two
   * 400s of validation and the 200 carrying an answer.
   */
  function SendOutcome(s: Store, userId: nat, message: Option<string>, conversationId: Option<int>,
                       complete: seq<Turn> -> Completion): (x: Exchange)
    ensures x.prompt.Some? <==> Truthy(message) && Given(conversationId) && HasConversation(s.conversations, conversationId.value)
    ensures x.prompt.None? ==> x.store == s
    ensures x.response.Reply? ==>
      || (x.response.status == 400 && x.prompt.None?)
      || (x.response.status == 200 && x.prompt.Some? && x.response.data.AnswerData?)
  {
    if !Truthy(message) then Exchange(Fail(400, MESSAGE_REQUIRED), None, s)
    else if !Given(conversationId) then Exchange(Fail(400, CONVERSATION_ID_REQUIRED), None, s)
    else
      var text, id := message.value, conversationId.value;
      var prompt := Prompt(Chats.GetMessages(s.conversations, s.messages, id, userId), text);
      var first := AddMessageTo(s, userId, id, text, User);
      if first.result.Err? then Exchange(Forwarded(DatabaseFault(first.result.error)), None, first.store)
      else Answer(first.store, userId, id, prompt, complete(prompt))
  }

  /** The second half of `sendMessage`, once the user message is stored: the completion's outcome and the storing of its answer. */
  function Answer(s: Store, userId: nat, conversationId: int, prompt: seq<Turn>, completion: Completion): (x: Exchange)
    ensures x.prompt == Some(prompt)
    ensures completion.Failed? ==> x == Exchange(Forwarded(UpstreamFault), Some(prompt), s)
    ensures completion.Completed? ==>
      x.store == AddMessageTo(s, userId, conversationId, completion.content, completion.role).store
    ensures x.response.Reply? ==>
      completion.Completed? && x.response == Done(200, AnswerData(completion.content, completion.role))
  {
    match completion
    case Failed => Exchange(Forwarded(UpstreamFault), Some(prompt), s)
    case Completed(role, content) =>
      var second := AddMessageTo(s, userId, conversationId, content, role);
      match second.result
      case Err(error) => Exchange(Forwarded(DatabaseFault(error)), Some(prompt), second.store)
      case Ok(_) => Exchange(Done(200, AnswerData(content, role)), Some(prompt), second.store)
  }

  /**
   * `sendMessage`: validates, reads the history, stores the user message, calls the completion and
   * stores its answer, returning early at the first failure.
   */
  method SendMessage(db: Database, user: UserInfo, message: Option<string>, conversationId: Option<int>,
                     complete: seq<Turn> -> Completion)
    returns (response: Response, prompt: Option<seq<Turn>>)
    requires db.Valid()
    modifies db
    ensures Exchange(response, prompt, db.store) == SendOutcome(old(db.store), user.id, message, conversationId, complete)
    ensures db.Valid()
  {
    prompt := None;
    if !Truthy(message) {
      return Fail(400, MESSAGE_REQUIRED), prompt;
    }
    if !Given(conversationId) {
      return Fail(400, CONVERSATION_ID_REQUIRED), prompt;
    }
    var text, id := message.value, conversationId.value;
    var previous := Chats.GetMessages(db.store.conversations, db.store.messages, id, user.id);
    var formatted := Prompt(previous, text);
    var stored := AddMessage(db, user.id, id, text, User);
    if stored.Err? {
      return Forwarded(DatabaseFault(stored.error)), prompt;
    }
    prompt := Some(formatted);
    var completion := complete(formatted);
    if completion.Failed? {
      return Forwarded(UpstreamFault), prompt;
    }
    var answer := AddMessage(db, user.id, id, completion.content, completion.role);
    match answer
    case Err(error) =>
      response := Forwarded(DatabaseFault(error));
    case Ok(_) =>
      response := Done(200, AnswerData(completion.content, completion.role));
  }

  /** An empty message is refused first, whatever the conversation id, and nothing is stored. */
  lemma MessageCheckedFirst(s: Store, userId: nat, message: Option<string>, conversationId: Option<int>,
                            conversationId': Option<int>, complete: seq<Turn> -> Completion)
    requires !Truthy(message)
    ensures SendOutcome(s, userId, message, conversationId, complete)
         == SendOutcome(s, userId, message, conversationId', complete)
         == Exchange(Fail(400, MESSAGE_REQUIRED), None, s)
  {
  }

  /** With a message but no conversation id the request is refused, no completion is asked for and nothing is stored. */
  lemma ConversationIdChecked(s: Store, userId: nat, message: Option<string>, conversationId: Option<int>,
                              complete: seq<Turn> -> Completion)
    requires Truthy(message) && !Given(conversationId)
    ensures SendOutcome(s, userId, message, conversationId, complete) == Exchange(Fail(400, CONVERSATION_ID_REQUIRED), None, s)
  {
  }

  /**
   * Past validation, `sendMessage` is the user message's `addMessage` followed, when that succeeds,
   * by `Answer` on the store it leaves; when it fails nothing changes and no completion is asked for.
   */
  lemma FirstWrite(s: Store, userId: nat, message: Option<string>, conversationId: Option<int>,
                   complete: seq<Turn> -> Completion)
    requires Truthy(message) && Given(conversationId)
    ensures var id := conversationId.value;
      var prompt := Prompt(Chats.GetMessages(s.conversations, s.messages, id, userId), message.value);
      var first := AddMessageTo(s, userId, id, message.value, User);
      SendOutcome(s, userId, message, conversationId, complete)
      == if HasConversation(s.conversations, id) then Answer(first.store, userId, id, prompt, complete(prompt))
         else Exchange(Forwarded(DatabaseFault(ForeignKeyViolation)), None, s)
  {
  }

  /**
   * Storing the completion's answer in a conversation that exists cannot fail: the answer is appended
   * by one more `addMessage` and returned with status 200.
   */
  lemma AnswerStored(s: Store, userId: nat, conversationId: int, prompt: seq<Turn>, completion: Completion)
    requires HasConversation(s.conversations, conversationId)
    requires completion.Completed?
    ensures var second := AddMessageTo(s, userId, conversationId, completion.content, completion.role);
      var x := Answer(s, userId, conversationId, prompt, completion);
      && second.result.Ok?
      && x == Exchange(Done(200, AnswerData(completion.content, completion.role)), Some(prompt), second.store)
  {
  }

  /**
   * The completion is asked for exactly when the user message was stored, and it sees the history
   * as it was before: the system message, the caller's view of the conversation, then the new
   * message, whose id is beyond every id in that history.
   */
  lemma PromptFromEarlierHistory(s: Store, userId: nat, message: Option<string>, conversationId: Option<int>,
                                 complete: seq<Turn> -> Completion)
    requires Consistent(s)
    requires Truthy(message) && Given(conversationId)
    ensures var x := SendOutcome(s, userId, message, conversationId, complete);
      var history := Chats.GetMessages(s.conversations, s.messages, conversationId.value, userId);
      && (x.prompt.Some? <==> HasConversation(s.conversations, conversationId.value))
      && (x.prompt.Some? ==> x.prompt.value == Prompt(history, message.value))
      && (forall h :: h in history ==> h.id < s.nextMessageId)
  {
    FirstWrite(s, userId, message, conversationId, complete);
    var history := Chats.GetMessages(s.conversations, s.messages, conversationId.value, userId);
    forall h | h in history ensures h.id < s.nextMessageId {
      var k :| 0 <= k < |s.messages| && s.messages[k] == h;
    }
  }

  /**
   * A caller who does not own the conversation gets a prompt of only the system message and their
   * own, yet their message is stored in that conversation.
   */
  lemma NonOwnerPrompt(s: Store, userId: nat, message: Option<string>, conversationId: Option<int>,
                       complete: seq<Turn> -> Completion)
    requires Truthy(message) && Given(conversationId)
    requires HasConversation(s.conversations, conversationId.value)
    requires !Owns(s.conversations, conversationId.value, userId)
    ensures var x := SendOutcome(s, userId, message, conversationId, complete);
      && x.prompt == Some([Turn(System, SYSTEM_PROMPT), Turn(User, message.value)])
      && Message(s.nextMessageId, userId, conversationId.value, message.value, User, s.clock + 1) in x.store.messages
  {
    var id := conversationId.value;
    FirstWrite(s, userId, message, conversationId, complete);
    var prompt := Prompt([], message.value);
    assert prompt == [Turn(System, SYSTEM_PROMPT), Turn(User, message.value)];
    var first := AddMessageTo(s, userId, id, message.value, User);
    var x := Answer(first.store, userId, id, prompt, complete(prompt));
    assert first.store.messages[|s.messages|] == first.result.value;
    assert x.store.messages[|s.messages|] == first.result.value;
  }

  /**
   * When the completion call fails, exactly the user message has been stored, no assistant message,
   * and the failure is forwarded.
   */
  lemma UpstreamFailureKeepsUserMessage(s: Store, userId: nat, message: Option<string>, conversationId: Option<int>,
                                        complete: seq<Turn> -> Completion)
    requires Truthy(message) && Given(conversationId)
    requires HasConversation(s.conversations, conversationId.value)
    requires complete(Prompt(Chats.GetMessages(s.conversations, s.messages, conversationId.value, userId), message.value)).Failed?
    ensures var x := SendOutcome(s, userId, message, conversationId, complete);
      && x.response == Forwarded(UpstreamFault)
      && x.store.messages == s.messages + [Message(s.nextMessageId, userId, conversationId.value, message.value, User, s.clock + 1)]
  {
    FirstWrite(s, userId, message, conversationId, complete);
  }

  /**
   * A successful exchange appends exactly two rows, the user message then the completion's answer
   * under its own role, and returns that answer with status 200.
   */
  lemma SuccessStoresBoth(s: Store, userId: nat, text: string, id: int, complete: seq<Turn> -> Completion,
                          role: Role, content: string)
    requires text != "" && id != 0
    requires HasConversation(s.conversations, id)
    requires complete(Prompt(Chats.GetMessages(s.conversations, s.messages, id, userId), text)) == Completed(role, content)
    ensures var x := SendOutcome(s, userId, Some(text), Some(id), complete);
      && x.response == Done(200, AnswerData(content, role))
      && x.store.messages == s.messages + [Message(s.nextMessageId, userId, id, text, User, s.clock + 1)]
           + [Message(s.nextMessageId + 1, userId, id, content, role, s.clock + 3)]
  {
    var prompt := Prompt(Chats.GetMessages(s.conversations, s.messages, id, userId), text);
    FirstWrite(s, userId, Some(text), Some(id), complete);
    var first := AddMessageTo(s, userId, id, text, User);
    TwoWrites(s, userId, id, text, role, content);
    AnswerStored(first.store, userId, id, prompt, complete(prompt));
  }

  lemma TwoWrites(s: Store, userId: nat, id: int, text: string, role: Role, content: string)
    requires HasConversation(s.conversations, id)
    ensures var first := AddMessageTo(s, userId, id, text, User);
      var second := AddMessageTo(first.store, userId, id, content, role);
      && first.result.Ok? && HasConversation(first.store.conversations, id) && second.result.Ok?
      && second.store.messages == s.messages + [Message(s.nextMessageId, userId, id, text, User, s.clock + 1)]
           + [Message(s.nextMessageId + 1, userId, id, content, role, s.clock + 3)]
  {
    var m1 := Message(s.nextMessageId, userId, id, text, User, s.clock + 1);
    var first := AddMessageTo(s, userId, id, text, User);
    assert first.result == Ok(m1);
    assert first.store.messages == s.messages + [m1];
    TouchKeepsOwners(s.conversations, id, s.clock + 2, id, 0);
    assert HasConversation(first.store.conversations, id);
    var m2 := Message(s.nextMessageId + 1, userId, id, content, role, s.clock + 3);
    var second := AddMessageTo(first.store, userId, id, content, role);
    assert second.result == Ok(m2);
    assert second.store.messages == first.store.messages + [m2];
  }

  /** After a successful exchange the owner reads the conversation as before, plus the question and the answer. */
  lemma OwnerSeesExchange(s: Store, userId: nat, text: string, id: int, complete: seq<Turn> -> Completion,
                          role: Role, content: string)
    requires text != "" && id != 0
    requires Owns(s.conversations, id, userId)
    requires complete(Prompt(Chats.GetMessages(s.conversations, s.messages, id, userId), text)) == Completed(role, content)
    ensures var x := SendOutcome(s, userId, Some(text), Some(id), complete);
      Chats.GetMessages(x.store.conversations, x.store.messages, id, userId)
      == Chats.GetMessages(s.conversations, s.messages, id, userId)
       + [Message(s.nextMessageId, userId, id, text, User, s.clock + 1)]
       + [Message(s.nextMessageId + 1, userId, id, content, role, s.clock + 3)]
  {
    var prompt := Prompt(Chats.GetMessages(s.conversations, s.messages, id, userId), text);
    assert HasConversation(s.conversations, id);
    FirstWrite(s, userId, Some(text), Some(id), complete);
    var first := AddMessageTo(s, userId, id, text, User);
    TwoWrites(s, userId, id, text, role, content);
    AnswerStored(first.store, userId, id, prompt, complete(prompt));
    TwoWritesVisible(s, userId, id, text, role, content);
  }

  /** The owner of the conversation sees both rows of two successive `addMessage`s, in order. */
  lemma TwoWritesVisible(s: Store, userId: nat, id: int, text: string, role: Role, content: string)
    requires Owns(s.conversations, id, userId)
    ensures var first := AddMessageTo(s, userId, id, text, User);
      var second := AddMessageTo(first.store, userId, id, content, role);
      Chats.GetMessages(second.store.conversations, second.store.messages, id, userId)
      == Chats.GetMessages(s.conversations, s.messages, id, userId)
       + [Message(s.nextMessageId, userId, id, text, User, s.clock + 1)]
       + [Message(s.nextMessageId + 1, userId, id, content, role, s.clock + 3)]
  {
    var first := AddMessageTo(s, userId, id, text, User);
    var second := AddMessageTo(first.store, userId, id, content, role);
    var before := Chats.GetMessages(s.conversations, s.messages, id, userId);
    var between := Chats.GetMessages(first.store.conversations, first.store.messages, id, userId);
    assert between == before + [Message(s.nextMessageId, userId, id, text, User, s.clock + 1)] by {
      assert HasConversation(s.conversations, id);
      AddedMessageVisible(s, userId, id, text, User, id, userId);
    }
    SecondWriteVisible(s, userId, id, text, role, content);
  }

  /** The second of two successive `addMessage`s is seen by the owner after the first. */
  lemma SecondWriteVisible(s: Store, userId: nat, id: int, text: string, role: Role, content: string)
    requires Owns(s.conversations, id, userId)
    ensures var first := AddMessageTo(s, userId, id, text, User);
      var second := AddMessageTo(first.store, userId, id, content, role);
      Chats.GetMessages(second.store.conversations, second.store.messages, id, userId)
      == Chats.GetMessages(first.store.conversations, first.store.messages, id, userId)
       + [Message(s.nextMessageId + 1, userId, id, content, role, s.clock + 3)]
  {
    var first := AddMessageTo(s, userId, id, text, User);
    assert first.result.Ok? && Owns(first.store.conversations, id, userId) by {
      assert HasConversation(s.conversations, id);
      TouchKeepsOwners(s.conversations, id, s.clock + 2, id, userId);
    }
    assert HasConversation(first.store.conversations, id);
    AddedMessageVisible(first.store, userId, id, content, role, id, userId);
  }

  /** `sendMessage` keeps the schema consistent, whatever the completion does. */
  lemma SendKeepsConsistent(s: Store, userId: nat, message: Option<string>, conversationId: Option<int>,
                            complete: seq<Turn> -> Completion)
    requires Consistent(s)
    ensures Consistent(SendOutcome(s, userId, message, conversationId, complete).store)
  {
    if Truthy(message) && Given(conversationId) {
      var id := conversationId.value;
      var prompt := Prompt(Chats.GetMessages(s.conversations, s.messages, id, userId), message.value);
      FirstWrite(s, userId, message, conversationId, complete);
      AddMessageKeepsConsistent(s, userId, id, message.value, User);
      var first := AddMessageTo(s, userId, id, message.value, User);
      if first.result.Ok? && complete(prompt).Completed? {
        AddMessageKeepsConsistent(first.store, userId, id, complete(prompt).content, complete(prompt).role);
      }
    }
  }

  // ---------------------------------------------------------------- the other handlers

  /** `createConversation`: 201 with the new row; a store error is forwarded. */
  method CreateConversation(db: Database, user: UserInfo, title: Option<string>) returns (response: Response)
    requires db.Valid()
    modifies db
    ensures var step := InsertConversation(old(db.store), user.id, title.GetOr(DEFAULT_TITLE));
      && db.store == step.store
      && response == if step.result.Ok? then Done(201, ConversationData(step.result.value))
                     else Forwarded(DatabaseFault(step.result.error))
    ensures HasUser(old(db.store.users), user.id) ==> response.Reply? && response.status == 201
    ensures db.Valid()
  {
    var conversation := Chats.CreateConversation(db, user.id, title);
    if conversation.Err? {
      return Forwarded(DatabaseFault(conversation.error));
    }
    response := Done(201, ConversationData(conversation.value));
  }

  /** `getConversations`: 200 with the caller's listing. */
  method GetConversations(db: Database, user: UserInfo) returns (response: Response)
    ensures response.Reply? && response.status == 200 && response.data.ConversationsData?
    ensures forall l :: l in response.data.conversations <==>
      l.conversation in db.store.conversations && l.conversation.userId == user.id
      && l.messageCount == CountMessages(db.store.messages, l.conversation.id)
    ensures ByRecency(response.data.conversations)
    ensures response.data.conversations == Chats.GetConversations(db.store.conversations, db.store.messages, user.id)
    ensures response == Done(200, ConversationsData(Chats.GetConversations(db.store.conversations, db.store.messages, user.id)))
  {
    var conversations := Chats.GetConversations(db.store.conversations, db.store.messages, user.id);
    response := Done(200, ConversationsData(conversations));
  }

  /** `getMessages`: 200 with the conversation's rows, oldest first, or no rows for a non-owner. */
  method GetMessages(db: Database, user: UserInfo, conversationId: int) returns (response: Response)
    requires db.Valid()
    ensures response.Reply? && response.status == 200 && response.data.MessagesData?
    ensures forall m :: m in response.data.messages <==>
      m in db.store.messages && m.conversationId == conversationId && Owns(db.store.conversations, conversationId, user.id)
    ensures Chronological(response.data.messages)
    ensures response == Done(200, MessagesData(Chats.GetMessages(db.store.conversations, db.store.messages, conversationId, user.id)))
  {
    var messages := Chats.GetMessages(db.store.conversations, db.store.messages, conversationId, user.id);
    response := Done(200, MessagesData(messages));
  }

  /** `deleteConversation`: 404 when the caller has no such conversation, 200 once it is deleted. */
  method DeleteConversation(db: Database, user: UserInfo, conversationId: int) returns (response: Response)
    requires db.Valid()
    modifies db
    ensures var step := DeleteFrom(old(db.store), conversationId, user.id);
      && db.store == step.store
      && response == if step.result then Reply(200, true, Some(DELETED), NoData) else Fail(404, NOT_FOUND)
    ensures db.Valid()
  {
    var deleted := Chats.DeleteConversation(db, conversationId, user.id);
    if !deleted {
      return Fail(404, NOT_FOUND);
    }
    response := Reply(200, true, Some(DELETED), NoData);
  }
}
