/** The conversation store of src/models/chat.js over the `conversations` and `chat_history` tables. */
module Chats {
  import opened Basics
  import opened Tables

  const DEFAULT_TITLE := "New Conversation"

  /** There is a conversation `conversationId` whose `user_id` is `userId`. */
  predicate Owns(conversations: seq<Conversation>, conversationId: int, userId: int) {
    exists i :: 0 <= i < |conversations| && conversations[i].id == conversationId && conversations[i].userId == userId
  }

  // ---------------------------------------------------------------- queries

  /** The `chat_history` rows with `conversation_id = conversationId`, in table order. */
  function MessagesOf(messages: seq<Message>, conversationId: int): (r: seq<Message>)
    ensures forall m :: m in r <==> m in messages && m.conversationId == conversationId
  {
    if |messages| == 0 then []
    else
      var rest := MessagesOf(messages[1..], conversationId);
      assert forall m :: m in rest ==> m in messages[1..];
      if messages[0].conversationId == conversationId then [messages[0]] + rest else rest
  }

  /** Filtering keeps table order, so the rows of one conversation are as chronological as the table. */
  lemma {:induction false} MessagesOfChronological(messages: seq<Message>, conversationId: int)
    ensures Chronological(messages) ==> Chronological(MessagesOf(messages, conversationId))
  {
    if |messages| > 0 && Chronological(messages) {
      var tail := messages[1..];
      var rest := MessagesOf(tail, conversationId);
      assert Chronological(tail);
      MessagesOfChronological(tail, conversationId);
      if messages[0].conversationId == conversationId {
        var r := [messages[0]] + rest;
        forall i, j | 0 <= i < j < |r|
          ensures r[i].id < r[j].id && r[i].createdAt < r[j].createdAt
        {
          if i == 0 {
            assert r[j] in tail;
            var k :| 0 <= k < |tail| && tail[k] == r[j];
            assert messages[k + 1] == r[j];
          }
        }
      }
    }
  }

  /** `(SELECT COUNT(*) FROM chat_history ch WHERE ch.conversation_id = c.id)`. */
  function CountMessages(messages: seq<Message>, conversationId: int): (n: nat)
    ensures n <= |messages|
    ensures n == 0 <==> forall m :: m in messages ==> m.conversationId != conversationId
  {
    if |messages| == 0 then 0
    else (if messages[0].conversationId == conversationId then 1 else 0) + CountMessages(messages[1..], conversationId)
  }

  /** The count in a listing is the number of rows `getMessages` would return to the owner. */
  lemma {:induction false} CountIsRowCount(messages: seq<Message>, conversationId: int)
    ensures CountMessages(messages, conversationId) == |MessagesOf(messages, conversationId)|
  {
    if |messages| > 0 {
      CountIsRowCount(messages[1..], conversationId);
    }
  }

  /**
   * `getMessages`: the conversation's rows ordered by `created_at`, joined with `conversations` on
   * `c.user_id = userId`, so a caller who does not own the conversation gets no rows.
   */
  function GetMessages(conversations: seq<Conversation>, messages: seq<Message>, conversationId: int, userId: int)
    : (r: seq<Message>)
    ensures forall m :: m in r <==>
      m in messages && m.conversationId == conversationId && Owns(conversations, conversationId, userId)
    ensures !Owns(conversations, conversationId, userId) ==> r == []
    ensures Chronological(messages) ==> Chronological(r)
  {
    MessagesOfChronological(messages, conversationId);
    if Owns(conversations, conversationId, userId) then MessagesOf(messages, conversationId) else []
  }

  /** Another user never sees the messages of a conversation that is not theirs. */
  lemma NonOwnerSeesNothing(conversations: seq<Conversation>, messages: seq<Message>, conversationId: int, owner: int, other: int)
    requires IdsIncreasing(conversations)
    requires Owns(conversations, conversationId, owner) && other != owner
    ensures GetMessages(conversations, messages, conversationId, other) == []
  {
  }

  /** `WHERE c.user_id = userId`, in table order. */
  function OwnedBy(conversations: seq<Conversation>, userId: int): (r: seq<Conversation>)
    ensures forall c :: c in r <==> c in conversations && c.userId == userId
    ensures |r| <= |conversations|
  {
    if |conversations| == 0 then []
    else
      var rest := OwnedBy(conversations[1..], userId);
      assert forall c :: c in rest ==> c in conversations[1..];
      if conversations[0].userId == userId then [conversations[0]] + rest else rest
  }

  /** Annotates each conversation with its `message_count`. */
  function Listings(conversations: seq<Conversation>, messages: seq<Message>): (r: seq<Listing>)
    ensures |r| == |conversations|
    ensures forall i :: 0 <= i < |r| ==> r[i] == Listing(conversations[i], CountMessages(messages, conversations[i].id))
  {
    if |conversations| == 0 then []
    else [Listing(conversations[0], CountMessages(messages, conversations[0].id))] + Listings(conversations[1..], messages)
  }

  /** `ORDER BY c.updated_at DESC`. */
  ghost predicate ByRecency(s: seq<Listing>) {
    forall i, j :: 0 <= i < j < |s| ==> s[i].conversation.updatedAt >= s[j].conversation.updatedAt
  }

  /** In a listing ordered by recency, the head is at least as recent as every later row. */
  lemma RecencyHead(s: seq<Listing>)
    requires ByRecency(s) && |s| > 0
    ensures forall y :: y in s[1..] ==> y.conversation.updatedAt <= s[0].conversation.updatedAt
  {
    forall y | y in s[1..] ensures y.conversation.updatedAt <= s[0].conversation.updatedAt {
      var k :| 0 <= k < |s[1..]| && s[1..][k] == y;
      assert s[k + 1] == y;
    }
  }

  /** Putting the head back in front of `x` inserted into the tail keeps the order and the rows. */
  lemma InsertBelowHead(x: Listing, s: seq<Listing>, rest: seq<Listing>)
    requires ByRecency(s) && |s| > 0 && x.conversation.updatedAt < s[0].conversation.updatedAt
    requires ByRecency(rest)
    requires multiset(rest) == multiset(s[1..]) + multiset{x}
    requires forall y :: y in rest ==> y == x || y in s[1..]
    ensures ByRecency([s[0]] + rest)
    ensures multiset([s[0]] + rest) == multiset(s) + multiset{x}
    ensures forall y :: y in [s[0]] + rest ==> y == x || y in s
  {
    assert s == [s[0]] + s[1..];
    RecencyHead(s);
    var r := [s[0]] + rest;
    forall i, j | 0 <= i < j < |r| ensures r[i].conversation.updatedAt >= r[j].conversation.updatedAt {
      if i == 0 {
        assert r[j] in rest;
      } else {
        assert r[i] == rest[i - 1] && r[j] == rest[j - 1];
      }
    }
  }

  function InsertByRecency(x: Listing, s: seq<Listing>): (r: seq<Listing>)
    requires ByRecency(s)
    ensures ByRecency(r)
    ensures multiset(r) == multiset(s) + multiset{x}
    ensures forall y :: y in r ==> y == x || y in s
  {
    if |s| == 0 then [x]
    else if x.conversation.updatedAt >= s[0].conversation.updatedAt then [x] + s
    else
      var rest := InsertByRecency(x, s[1..]);
      InsertBelowHead(x, s, rest);
      [s[0]] + rest
  }

  function SortByRecency(s: seq<Listing>): (r: seq<Listing>)
    ensures ByRecency(r)
    ensures multiset(r) == multiset(s)
  {
    if |s| == 0 then []
    else
      assert s == [s[0]] + s[1..];
      InsertByRecency(s[0], SortByRecency(s[1..]))
  }

  /**
   * `getConversations`: the caller's conversations with their message counts, most recently
   * updated first.
   */
  function GetConversations(conversations: seq<Conversation>, messages: seq<Message>, userId: int): (r: seq<Listing>)
    ensures ByRecency(r)
    ensures forall l :: l in r <==>
      && l.conversation in conversations
      && l.conversation.userId == userId
      && l.messageCount == CountMessages(messages, l.conversation.id)
    ensures |r| == |OwnedBy(conversations, userId)|
  {
    var r := SortByRecency(Listings(OwnedBy(conversations, userId), messages));
    ListingRows(conversations, messages, userId, r);
    r
  }

  /** Any reordering of the annotated conversations of `userId` holds exactly that user's listings. */
  lemma ListingRows(conversations: seq<Conversation>, messages: seq<Message>, userId: int, r: seq<Listing>)
    requires multiset(r) == multiset(Listings(OwnedBy(conversations, userId), messages))
    ensures forall l :: l in r <==>
      && l.conversation in conversations
      && l.conversation.userId == userId
      && l.messageCount == CountMessages(messages, l.conversation.id)
    ensures |r| == |OwnedBy(conversations, userId)|
  {
    var owned := OwnedBy(conversations, userId);
    var listed := Listings(owned, messages);
    forall l
      ensures l in r <==>
        l.conversation in conversations && l.conversation.userId == userId
        && l.messageCount == CountMessages(messages, l.conversation.id)
    {
      assert l in r <==> l in multiset(r);
      assert l in listed <==> l in multiset(listed);
      if l in listed {
        var i :| 0 <= i < |listed| && listed[i] == l;
        assert owned[i] in owned;
      }
      if l.conversation in conversations && l.conversation.userId == userId
         && l.messageCount == CountMessages(messages, l.conversation.id) {
        var i :| 0 <= i < |owned| && owned[i] == l.conversation;
        assert listed[i] == l;
      }
    }
    assert |r| == |multiset(r)| == |multiset(listed)| == |listed|;
  }

  // ---------------------------------------------------------------- state changes, on values

  /** `UPDATE conversations SET updated_at = now WHERE id = conversationId`. */
  function Touch(conversations: seq<Conversation>, conversationId: int, now: nat): (r: seq<Conversation>)
    ensures |r| == |conversations|
    ensures forall i :: 0 <= i < |r| ==>
      && r[i].id == conversations[i].id
      && r[i].userId == conversations[i].userId
      && r[i].title == conversations[i].title
      && r[i].createdAt == conversations[i].createdAt
      && r[i].updatedAt == if conversations[i].id == conversationId then now else conversations[i].updatedAt
  {
    seq(|conversations|, i requires 0 <= i < |conversations| =>
      var c := conversations[i];
      if c.id == conversationId then c.(updatedAt := now) else c)
  }

  /** Touching keeps every conversation's id and owner, so ownership and existence are unchanged. */
  lemma TouchKeepsOwners(conversations: seq<Conversation>, conversationId: int, now: nat, id: int, userId: int)
    ensures Owns(Touch(conversations, conversationId, now), id, userId) == Owns(conversations, id, userId)
    ensures HasConversation(Touch(conversations, conversationId, now), id) == HasConversation(conversations, id)
  {
    var t := Touch(conversations, conversationId, now);
    if Owns(conversations, id, userId) {
      var i :| 0 <= i < |conversations| && conversations[i].id == id && conversations[i].userId == userId;
      assert t[i].id == id && t[i].userId == userId;
    }
    if Owns(t, id, userId) {
      var i :| 0 <= i < |t| && t[i].id == id && t[i].userId == userId;
      assert conversations[i].id == id;
    }
    if HasConversation(conversations, id) {
      var i :| 0 <= i < |conversations| && conversations[i].id == id;
      assert t[i].id == id;
    }
    if HasConversation(t, id) {
      var i :| 0 <= i < |t| && t[i].id == id;
      assert conversations[i].id == id;
    }
  }

  /** Appending a row adds it at the end of its own conversation's rows and leaves the others alone. */
  lemma {:induction false} MessagesOfAppend(messages: seq<Message>, m: Message, conversationId: int)
    ensures MessagesOf(messages + [m], conversationId)
         == MessagesOf(messages, conversationId) + (if m.conversationId == conversationId then [m] else [])
  {
    if |messages| > 0 {
      assert (messages + [m])[1..] == messages[1..] + [m];
      MessagesOfAppend(messages[1..], m, conversationId);
    }
  }

  /**
   * After `addMessage` (insert `m`, then touch its conversation), `getMessages` returns exactly what
   * it returned before, plus `m` at the end for the owner of `m`'s conversation.
   */
  lemma AppendVisibility(conversations: seq<Conversation>, messages: seq<Message>, m: Message, now: nat,
                         conversationId: int, userId: int)
    ensures GetMessages(Touch(conversations, m.conversationId, now), messages + [m], conversationId, userId)
         == GetMessages(conversations, messages, conversationId, userId)
          + (if conversationId == m.conversationId && Owns(conversations, conversationId, userId) then [m] else [])
  {
    TouchKeepsOwners(conversations, m.conversationId, now, conversationId, userId);
    MessagesOfAppend(messages, m, conversationId);
  }

  /**
   * A conversation updated strictly later than every other one comes first in its owner's listing,
   * with its message count.
   */
  lemma {:induction false} LatestComesFirst(conversations: seq<Conversation>, messages: seq<Message>, i: nat)
    requires i < |conversations|
    requires forall j :: 0 <= j < |conversations| && j != i ==> conversations[j].updatedAt < conversations[i].updatedAt
    ensures var r := GetConversations(conversations, messages, conversations[i].userId);
      |r| > 0 && r[0] == Listing(conversations[i], CountMessages(messages, conversations[i].id))
  {
    var c := conversations[i];
    var r := GetConversations(conversations, messages, c.userId);
    var l := Listing(c, CountMessages(messages, c.id));
    assert l in r;
    var j :| 0 <= j < |r| && r[j] == l;
    assert r[0].conversation.updatedAt >= c.updatedAt by {
      if j > 0 {
        assert r[0].conversation.updatedAt >= r[j].conversation.updatedAt;
      }
    }
    var k :| 0 <= k < |conversations| && conversations[k] == r[0].conversation;
    assert k == i;
  }

  /**
   * A conversation touched with a timestamp later than every other `updated_at` comes first in its
   * owner's listing: the re-ordering is visible at once.
   */
  lemma TouchedComesFirst(conversations: seq<Conversation>, messages: seq<Message>, conversationId: int, userId: int, now: nat)
    requires IdsIncreasing(conversations)
    requires Owns(conversations, conversationId, userId)
    requires forall i :: 0 <= i < |conversations| ==> conversations[i].updatedAt < now
    ensures var r := GetConversations(Touch(conversations, conversationId, now), messages, userId);
      |r| > 0 && r[0].conversation.id == conversationId && r[0].conversation.updatedAt == now
  {
    var t := Touch(conversations, conversationId, now);
    var i :| 0 <= i < |conversations| && conversations[i].id == conversationId && conversations[i].userId == userId;
    forall j | 0 <= j < |t| && j != i
      ensures t[j].updatedAt < t[i].updatedAt
    {
      assert conversations[j].id != conversationId by {
        if j < i {
          assert conversations[j].id < conversations[i].id;
        } else {
          assert conversations[i].id < conversations[j].id;
        }
      }
    }
    LatestComesFirst(t, messages, i);
  }

  /** `DELETE FROM conversations WHERE id = conversationId AND user_id = userId`. */
  function RemoveConversation(conversations: seq<Conversation>, conversationId: int, userId: int): (r: seq<Conversation>)
    ensures forall c :: c in r <==> c in conversations && !(c.id == conversationId && c.userId == userId)
  {
    if |conversations| == 0 then []
    else
      var rest := RemoveConversation(conversations[1..], conversationId, userId);
      assert forall c :: c in rest ==> c in conversations[1..];
      var c := conversations[0];
      if c.id == conversationId && c.userId == userId then rest else [c] + rest
  }

  /** The cascade of that delete on `chat_history`. */
  function RemoveMessagesOf(messages: seq<Message>, conversationId: int): (r: seq<Message>)
    ensures forall m :: m in r <==> m in messages && m.conversationId != conversationId
  {
    if |messages| == 0 then []
    else
      var rest := RemoveMessagesOf(messages[1..], conversationId);
      assert forall m :: m in rest ==> m in messages[1..];
      if messages[0].conversationId == conversationId then rest else [messages[0]] + rest
  }

  /** The delete keeps table order, so the conversations left still have increasing ids. */
  lemma {:induction false} RemoveConversationIncreasing(conversations: seq<Conversation>, conversationId: int, userId: int)
    requires IdsIncreasing(conversations)
    ensures IdsIncreasing(RemoveConversation(conversations, conversationId, userId))
  {
    if |conversations| > 0 {
      var tail := conversations[1..];
      var rest := RemoveConversation(tail, conversationId, userId);
      RemoveConversationIncreasing(tail, conversationId, userId);
      var c := conversations[0];
      if !(c.id == conversationId && c.userId == userId) {
        var r := [c] + rest;
        forall i, j | 0 <= i < j < |r| ensures r[i].id < r[j].id {
          if i == 0 {
            assert r[j] in tail;
            var k :| 0 <= k < |tail| && tail[k] == r[j];
            assert conversations[k + 1] == r[j];
          }
        }
      }
    }
  }

  /** The cascade keeps table order, so the messages left are still chronological. */
  lemma {:induction false} RemoveMessagesOfChronological(messages: seq<Message>, conversationId: int)
    requires Chronological(messages)
    ensures Chronological(RemoveMessagesOf(messages, conversationId))
  {
    if |messages| > 0 {
      var tail := messages[1..];
      var rest := RemoveMessagesOf(tail, conversationId);
      RemoveMessagesOfChronological(tail, conversationId);
      if messages[0].conversationId != conversationId {
        var r := [messages[0]] + rest;
        forall i, j | 0 <= i < j < |r|
          ensures r[i].id < r[j].id && r[i].createdAt < r[j].createdAt
        {
          if i == 0 {
            assert r[j] in tail;
            var k :| 0 <= k < |tail| && tail[k] == r[j];
            assert messages[k + 1] == r[j];
          }
        }
      }
    }
  }

  lemma {:induction false} MessagesOfAfterRemove(messages: seq<Message>, removed: int, conversationId: int)
    requires removed != conversationId
    ensures MessagesOf(RemoveMessagesOf(messages, removed), conversationId) == MessagesOf(messages, conversationId)
  {
    if |messages| > 0 {
      MessagesOfAfterRemove(messages[1..], removed, conversationId);
    }
  }

  /**
   * Deleting an owned conversation removes it and, by the cascade, all its messages: no row of it
   * is left and nobody sees any of its messages afterwards.
   */
  lemma DeletedConversationGone(conversations: seq<Conversation>, messages: seq<Message>, conversationId: int,
                                userId: int, anyone: int)
    requires IdsIncreasing(conversations)
    requires Owns(conversations, conversationId, userId)
    ensures !HasConversation(RemoveConversation(conversations, conversationId, userId), conversationId)
    ensures forall m :: m in RemoveMessagesOf(messages, conversationId) ==> m.conversationId != conversationId
    ensures GetMessages(RemoveConversation(conversations, conversationId, userId), RemoveMessagesOf(messages, conversationId),
                        conversationId, anyone) == []
  {
    var r := RemoveConversation(conversations, conversationId, userId);
    var i :| 0 <= i < |conversations| && conversations[i].id == conversationId && conversations[i].userId == userId;
    forall k | 0 <= k < |r|
      ensures r[k].id != conversationId
    {
      assert r[k] in conversations;
      var j :| 0 <= j < |conversations| && conversations[j] == r[k];
      assert conversations[j].id == conversationId ==> j == i;
    }
  }

  /** Deleting a conversation leaves every other conversation's messages visible to exactly the same users. */
  lemma DeleteKeepsOthers(conversations: seq<Conversation>, messages: seq<Message>, conversationId: int, userId: int,
                          otherId: int, anyone: int)
    requires otherId != conversationId
    ensures GetMessages(RemoveConversation(conversations, conversationId, userId), RemoveMessagesOf(messages, conversationId),
                        otherId, anyone)
         == GetMessages(conversations, messages, otherId, anyone)
  {
    var r := RemoveConversation(conversations, conversationId, userId);
    MessagesOfAfterRemove(messages, conversationId, otherId);
    if Owns(conversations, otherId, anyone) {
      var k :| 0 <= k < |conversations| && conversations[k].id == otherId && conversations[k].userId == anyone;
      assert conversations[k] in r;
      var j :| 0 <= j < |r| && r[j] == conversations[k];
    }
    if Owns(r, otherId, anyone) {
      var k :| 0 <= k < |r| && r[k].id == otherId && r[k].userId == anyone;
      assert r[k] in conversations;
      var j :| 0 <= j < |conversations| && conversations[j] == r[k];
    }
  }

  // ---------------------------------------------------------------- the write statements, on values

  /**
   * The `INSERT INTO conversations (user_id, title) ... RETURNING *` of `createConversation`. Only
   * the foreign key on `user_id` can reject it.
   */
  function InsertConversation(s: Store, userId: nat, title: string): (r: Step<Result<Conversation, DbError>>)
    ensures r.result.Err? <==> !HasUser(s.users, userId)
    ensures r.result.Err? ==> r.result.error == ForeignKeyViolation && r.store == s
    ensures r.result.Ok? ==>
      var c := r.result.value;
      && c == Conversation(s.nextConversationId, userId, title, s.clock + 1, s.clock + 1)
      && r.store == s.(conversations := s.conversations + [c], clock := s.clock + 1,
                       nextConversationId := s.nextConversationId + 1)
  {
    if !HasUser(s.users, userId) then Step(Err(ForeignKeyViolation), s)
    else
      var c := Conversation(s.nextConversationId, userId, title, s.clock + 1, s.clock + 1);
      Step(Ok(c), s.(conversations := s.conversations + [c], clock := s.clock + 1,
                     nextConversationId := s.nextConversationId + 1))
  }

  /**
   * `addMessage`: the `INSERT INTO chat_history` (which only the foreign key on `conversation_id`
   * can reject: there is no ownership check, whoever `userId` is), then, once it has succeeded, the
   * `UPDATE conversations SET updated_at = CURRENT_TIMESTAMP` of that conversation.
   */
  function AddMessageTo(s: Store, userId: nat, conversationId: int, text: string, role: Role): (r: Step<Result<Message, DbError>>)
    ensures r.result.Err? <==> !HasConversation(s.conversations, conversationId)
    ensures r.result.Err? ==> r.result.error == ForeignKeyViolation && r.store == s
    ensures r.result.Ok? ==>
      var m := r.result.value;
      && m == Message(s.nextMessageId, userId, conversationId, text, role, s.clock + 1)
      && r.store == s.(conversations := Touch(s.conversations, conversationId, s.clock + 2),
                       messages := s.messages + [m], clock := s.clock + 2, nextMessageId := s.nextMessageId + 1)
  {
    if !HasConversation(s.conversations, conversationId) then Step(Err(ForeignKeyViolation), s)
    else
      var m := Message(s.nextMessageId, userId, conversationId as nat, text, role, s.clock + 1);
      var inserted := s.(messages := s.messages + [m], clock := s.clock + 1, nextMessageId := s.nextMessageId + 1);
      var touched := inserted.(conversations := Touch(inserted.conversations, conversationId, inserted.clock + 1),
                               clock := inserted.clock + 1);
      Step(Ok(m), touched)
  }

  /**
   * `deleteConversation`: the ownership check, then the `DELETE FROM conversations` with its
   * cascade on `chat_history`; answers whether anything was deleted.
   */
  function DeleteFrom(s: Store, conversationId: int, userId: int): (r: Step<bool>)
    ensures r.result <==> Owns(s.conversations, conversationId, userId)
    ensures !r.result ==> r.store == s
    ensures r.result ==>
      r.store == s.(conversations := RemoveConversation(s.conversations, conversationId, userId),
                    messages := RemoveMessagesOf(s.messages, conversationId))
  {
    if !Owns(s.conversations, conversationId, userId) then Step(false, s)
    else
      Step(true, s.(conversations := RemoveConversation(s.conversations, conversationId, userId),
                    messages := RemoveMessagesOf(s.messages, conversationId)))
  }

  // ---------------------------------------------------------------- what the writes keep and show

  lemma InsertConversationKeepsConsistent(s: Store, userId: nat, title: string)
    requires Consistent(s)
    ensures Consistent(InsertConversation(s, userId, title).store)
  {
    var r := InsertConversation(s, userId, title);
    if r.result.Ok? {
      var conversations' := r.store.conversations;
      forall i | 0 <= i < |s.messages|
        ensures HasConversation(conversations', s.messages[i].conversationId)
      {
        assert HasConversation(s.conversations, s.messages[i].conversationId);
        var k :| 0 <= k < |s.conversations| && s.conversations[k].id == s.messages[i].conversationId;
        assert conversations'[k] == s.conversations[k];
      }
    }
  }

  /** A new conversation has no messages yet, so its owner sees none and its count is zero. */
  lemma NewConversationEmpty(s: Store, userId: nat, title: string)
    requires Consistent(s)
    requires InsertConversation(s, userId, title).result.Ok?
    ensures var r := InsertConversation(s, userId, title);
      && GetMessages(r.store.conversations, r.store.messages, r.result.value.id, userId) == []
      && CountMessages(r.store.messages, r.result.value.id) == 0
  {
    var id := s.nextConversationId;
    forall m | m in s.messages
      ensures m.conversationId != id
    {
      var i :| 0 <= i < |s.messages| && s.messages[i] == m;
      var k :| 0 <= k < |s.conversations| && s.conversations[k].id == m.conversationId;
    }
    CountIsRowCount(s.messages, id);
  }

  /** A new conversation comes first in its owner's listing, with a message count of zero. */
  lemma NewConversationFirst(s: Store, userId: nat, title: string)
    requires Consistent(s)
    requires InsertConversation(s, userId, title).result.Ok?
    ensures var r := InsertConversation(s, userId, title);
      var listing := GetConversations(r.store.conversations, r.store.messages, userId);
      |listing| > 0 && listing[0] == Listing(r.result.value, 0)
  {
    var r := InsertConversation(s, userId, title);
    var t := r.store.conversations;
    NewConversationEmpty(s, userId, title);
    assert t[|s.conversations|] == r.result.value;
    LatestComesFirst(t, r.store.messages, |s.conversations|);
  }

  lemma InsertMessageKeepsConsistent(s: Store, m: Message)
    requires Consistent(s)
    requires m.id == s.nextMessageId && m.createdAt == s.clock + 1 && HasConversation(s.conversations, m.conversationId)
    ensures Consistent(s.(messages := s.messages + [m], clock := s.clock + 1, nextMessageId := s.nextMessageId + 1))
  {
    var messages' := s.messages + [m];
    forall i, j | 0 <= i < j < |messages'|
      ensures messages'[i].id < messages'[j].id && messages'[i].createdAt < messages'[j].createdAt
    {
      if j == |s.messages| {
        assert messages'[i] == s.messages[i];
      }
    }
  }

  lemma TouchKeepsConsistent(s: Store, conversationId: int)
    requires Consistent(s)
    ensures Consistent(s.(conversations := Touch(s.conversations, conversationId, s.clock + 1), clock := s.clock + 1))
  {
    var t := Touch(s.conversations, conversationId, s.clock + 1);
    forall i | 0 <= i < |s.messages|
      ensures HasConversation(t, s.messages[i].conversationId)
    {
      TouchKeepsOwners(s.conversations, conversationId, s.clock + 1, s.messages[i].conversationId, 0);
    }
  }

  lemma AddMessageKeepsConsistent(s: Store, userId: nat, conversationId: int, text: string, role: Role)
    requires Consistent(s)
    ensures Consistent(AddMessageTo(s, userId, conversationId, text, role).store)
  {
    if HasConversation(s.conversations, conversationId) {
      var m := Message(s.nextMessageId, userId, conversationId as nat, text, role, s.clock + 1);
      var inserted := s.(messages := s.messages + [m], clock := s.clock + 1, nextMessageId := s.nextMessageId + 1);
      var touched := inserted.(conversations := Touch(inserted.conversations, conversationId, inserted.clock + 1),
                               clock := inserted.clock + 1);
      InsertMessageKeepsConsistent(s, m);
      TouchKeepsConsistent(inserted, conversationId);
      assert AddMessageTo(s, userId, conversationId, text, role).store == touched;
    }
  }

  /**
   * After `addMessage`, `getMessages` returns exactly what it returned before, plus the new row at
   * the end for the owner of its conversation.
   */
  lemma AddedMessageVisible(s: Store, userId: nat, conversationId: int, text: string, role: Role, id: int, uid: int)
    requires AddMessageTo(s, userId, conversationId, text, role).result.Ok?
    ensures var r := AddMessageTo(s, userId, conversationId, text, role);
      GetMessages(r.store.conversations, r.store.messages, id, uid)
      == GetMessages(s.conversations, s.messages, id, uid)
       + (if id == conversationId && Owns(s.conversations, id, uid) then [r.result.value] else [])
  {
    var r := AddMessageTo(s, userId, conversationId, text, role);
    AppendVisibility(s.conversations, s.messages, r.result.value, s.clock + 2, id, uid);
  }

  /** A message moves its conversation to the top of its owner's listing. */
  lemma AddedMessageRaises(s: Store, userId: nat, conversationId: int, text: string, role: Role, owner: int)
    requires Consistent(s)
    requires Owns(s.conversations, conversationId, owner)
    ensures var r := AddMessageTo(s, userId, conversationId, text, role);
      var listing := GetConversations(r.store.conversations, r.store.messages, owner);
      |listing| > 0 && listing[0].conversation.id == conversationId && listing[0].conversation.updatedAt == r.store.clock
  {
    var r := AddMessageTo(s, userId, conversationId, text, role);
    assert HasConversation(s.conversations, conversationId);
    TouchedComesFirst(s.conversations, r.store.messages, conversationId, owner, s.clock + 2);
  }

  /** The conversations a delete leaves keep their bounds and their owners. */
  lemma RemainingConversationsValid(conversations: seq<Conversation>, users: seq<UserRow>, next: nat, clock: nat,
                                    conversationId: int, userId: int)
    requires forall i :: 0 <= i < |conversations| ==>
      1 <= conversations[i].id < next && conversations[i].updatedAt <= clock && HasUser(users, conversations[i].userId)
    ensures var r := RemoveConversation(conversations, conversationId, userId);
      forall i :: 0 <= i < |r| ==> 1 <= r[i].id < next && r[i].updatedAt <= clock && HasUser(users, r[i].userId)
  {
    var r := RemoveConversation(conversations, conversationId, userId);
    forall i | 0 <= i < |r|
      ensures 1 <= r[i].id < next && r[i].updatedAt <= clock && HasUser(users, r[i].userId)
    {
      assert r[i] in conversations;
      var k :| 0 <= k < |conversations| && conversations[k] == r[i];
    }
  }

  /** Every message the cascade leaves still belongs to a conversation the delete left. */
  lemma RemainingMessagesValid(conversations: seq<Conversation>, messages: seq<Message>, next: nat, clock: nat,
                               conversationId: int, userId: int)
    requires forall i :: 0 <= i < |messages| ==>
      1 <= messages[i].id < next && messages[i].createdAt <= clock && HasConversation(conversations, messages[i].conversationId)
    ensures var r := RemoveConversation(conversations, conversationId, userId);
      var ms := RemoveMessagesOf(messages, conversationId);
      forall i :: 0 <= i < |ms| ==> 1 <= ms[i].id < next && ms[i].createdAt <= clock && HasConversation(r, ms[i].conversationId)
  {
    var r := RemoveConversation(conversations, conversationId, userId);
    var ms := RemoveMessagesOf(messages, conversationId);
    forall i | 0 <= i < |ms|
      ensures 1 <= ms[i].id < next && ms[i].createdAt <= clock && HasConversation(r, ms[i].conversationId)
    {
      var m := ms[i];
      assert m in messages && m.conversationId != conversationId;
      var n :| 0 <= n < |messages| && messages[n] == m;
      assert HasConversation(conversations, m.conversationId);
      var k :| 0 <= k < |conversations| && conversations[k].id == m.conversationId;
      assert conversations[k] in r;
      var j :| 0 <= j < |r| && r[j] == conversations[k];
    }
  }

  /** A store whose conversations and messages are replaced by ones satisfying the schema's constraints stays consistent. */
  lemma ReplacedRowsConsistent(s: Store, conversations: seq<Conversation>, messages: seq<Message>)
    requires Consistent(s)
    requires IdsIncreasing(conversations)
    requires forall i :: 0 <= i < |conversations| ==>
      1 <= conversations[i].id < s.nextConversationId && conversations[i].updatedAt <= s.clock
      && HasUser(s.users, conversations[i].userId)
    requires Chronological(messages)
    requires forall i :: 0 <= i < |messages| ==>
      1 <= messages[i].id < s.nextMessageId && messages[i].createdAt <= s.clock
      && HasConversation(conversations, messages[i].conversationId)
    ensures Consistent(s.(conversations := conversations, messages := messages))
  {
  }

  lemma DeleteKeepsConsistent(s: Store, conversationId: int, userId: int)
    requires Consistent(s)
    ensures Consistent(DeleteFrom(s, conversationId, userId).store)
  {
    if Owns(s.conversations, conversationId, userId) {
      RemoveConversationIncreasing(s.conversations, conversationId, userId);
      RemoveMessagesOfChronological(s.messages, conversationId);
      RemainingConversationsValid(s.conversations, s.users, s.nextConversationId, s.clock, conversationId, userId);
      RemainingMessagesValid(s.conversations, s.messages, s.nextMessageId, s.clock, conversationId, userId);
      ReplacedRowsConsistent(s, RemoveConversation(s.conversations, conversationId, userId),
                             RemoveMessagesOf(s.messages, conversationId));
    }
  }

  // ---------------------------------------------------------------- the store operations

  /**
   * `createConversation`: inserts a conversation owned by `userId`, titled `title` or, when no title
   * is passed, 'New Conversation'.
   */
  method CreateConversation(db: Database, userId: nat, title: Option<string>) returns (r: Result<Conversation, DbError>)
    requires db.Valid()
    modifies db
    ensures Step(r, db.store) == InsertConversation(old(db.store), userId, title.GetOr(DEFAULT_TITLE))
    ensures db.Valid()
  {
    var step := InsertConversation(db.store, userId, title.GetOr(DEFAULT_TITLE));
    InsertConversationKeepsConsistent(db.store, userId, title.GetOr(DEFAULT_TITLE));
    db.store := step.store;
    r := step.result;
  }

  method AddMessage(db: Database, userId: nat, conversationId: int, text: string, role: Role)
    returns (r: Result<Message, DbError>)
    requires db.Valid()
    modifies db
    ensures Step(r, db.store) == AddMessageTo(old(db.store), userId, conversationId, text, role)
    ensures db.Valid()
  {
    var step := AddMessageTo(db.store, userId, conversationId, text, role);
    AddMessageKeepsConsistent(db.store, userId, conversationId, text, role);
    db.store := step.store;
    r := step.result;
  }

  method DeleteConversation(db: Database, conversationId: int, userId: int) returns (deleted: bool)
    requires db.Valid()
    modifies db
    ensures Step(deleted, db.store) == DeleteFrom(old(db.store), conversationId, userId)
    ensures db.Valid()
  {
    var step := DeleteFrom(db.store, conversationId, userId);
    DeleteKeepsConsistent(db.store, conversationId, userId);
    db.store := step.store;
    deleted := step.result;
  }
}
