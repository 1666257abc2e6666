/**
 * The three relations of the PostgreSQL schema (users, conversations, chat_history) held in memory.
 * CURRENT_TIMESTAMP is a `nat` clock that advances by one on every INSERT and UPDATE that
 * succeeds (a DELETE and a failed statement leave it alone), and each SERIAL id column is a counter.
 */
module Tables {
  import opened Basics

  /** A bcrypt hash string. */
  type Digest = string

  /** `chat_history.role`. */
  datatype Role = System | User | Assistant

  /** A full `users` row, password hash included. */
  datatype UserRow = UserRow(id: nat, username: string, email: string, password: Digest, createdAt: nat)

  /** The columns `id, username, email, created_at`: a user without the password hash. */
  datatype UserInfo = UserInfo(id: nat, username: string, email: string, createdAt: nat)

  datatype Conversation = Conversation(id: nat, userId: nat, title: string, createdAt: nat, updatedAt: nat)

  /** A `chat_history` row. */
  datatype Message = Message(id: nat, userId: nat, conversationId: nat, text: string, role: Role, createdAt: nat)

  /** A row of the conversation listing: `c.*` together with its `message_count`. */
  datatype Listing = Listing(conversation: Conversation, messageCount: nat)

  /** The constraint that makes a write statement fail. */
  datatype DbError = UniqueViolation | ForeignKeyViolation

  /** Drops the password hash from a row. */
  function Public(row: UserRow): UserInfo {
    UserInfo(row.id, row.username, row.email, row.createdAt)
  }

  predicate HasUser(users: seq<UserRow>, id: int) {
    exists i :: 0 <= i < |users| && users[i].id == id
  }

  predicate HasConversation(conversations: seq<Conversation>, id: int) {
    exists i :: 0 <= i < |conversations| && conversations[i].id == id
  }

  /** Conversation ids strictly increase in table order (so they are unique). */
  ghost predicate IdsIncreasing(conversations: seq<Conversation>) {
    forall i, j :: 0 <= i < j < |conversations| ==> conversations[i].id < conversations[j].id
  }

  /** Message ids and creation times strictly increase in table order. */
  ghost predicate Chronological(messages: seq<Message>) {
    forall i, j :: 0 <= i < j < |messages| ==>
      messages[i].id < messages[j].id && messages[i].createdAt < messages[j].createdAt
  }

  /** No two users share an id, a username or an email. */
  ghost predicate DistinctUsers(users: seq<UserRow>) {
    forall i, j :: 0 <= i < j < |users| ==>
      users[i].id < users[j].id && users[i].username != users[j].username && users[i].email != users[j].email
  }

  /**
   * The contents of the database: the three tables, CURRENT_TIMESTAMP as a clock, and the next
   * value of each SERIAL column.
   */
  datatype Store = Store(users: seq<UserRow>, conversations: seq<Conversation>, messages: seq<Message>,
                         clock: nat, nextUserId: nat, nextConversationId: nat, nextMessageId: nat)

  /** A freshly initialised schema: no rows, every sequence at 1. */
  const EMPTY := Store([], [], [], 0, 1, 1, 1)

  /** What one database call returns, together with the store it leaves behind. */
  datatype Step<T> = Step(result: T, store: Store)

  /** The schema's constraints and the facts the SERIAL columns and the clock keep. */
  ghost predicate Consistent(s: Store) {
    && 1 <= s.nextUserId && 1 <= s.nextConversationId && 1 <= s.nextMessageId
    && DistinctUsers(s.users)
    && (forall i :: 0 <= i < |s.users| ==> 1 <= s.users[i].id < s.nextUserId && s.users[i].createdAt <= s.clock)
    && IdsIncreasing(s.conversations)
    && (forall i :: 0 <= i < |s.conversations| ==>
          && 1 <= s.conversations[i].id < s.nextConversationId
          && s.conversations[i].updatedAt <= s.clock
          && HasUser(s.users, s.conversations[i].userId))
    && Chronological(s.messages)
    && (forall i :: 0 <= i < |s.messages| ==>
          && 1 <= s.messages[i].id < s.nextMessageId
          && s.messages[i].createdAt <= s.clock
          && HasConversation(s.conversations, s.messages[i].conversationId))
  }

  /** The PostgreSQL pool of src/configs/db.js: one database whose contents every query reads or replaces. */
  class Database {
    var store: Store

    ghost predicate Valid()
      reads this
    {
      Consistent(store)
    }

    constructor ()
      ensures Valid()
      ensures store == EMPTY
    {
      store := EMPTY;
    }
  }
}
