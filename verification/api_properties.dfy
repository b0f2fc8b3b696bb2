/** Properties of sequences of requests against the handlers. */
module ApiProperties {
  import opened Sql
  import opened AccountDao
  import opened MessageDao
  import opened AccountService
  import MessageService
  import opened SocialMediaController

  /** Registering the same valid username twice: 200, then 400, whatever
      key or storage outcome the second attempt meets. */
  lemma RegisterTwice(s: Store, request: Account, key1: int, key2: int, insert2: Io, lookup2: Io)
    requires IsValidAccount(request)
    requires forall k :: k in s.accounts ==> !HasUsername(s.accounts[k], request.username)
    requires key1 !in s.accounts
    ensures var (first, s1) := RegisterHandler(s, request, Completes, key1, Completes);
      && first.status == Ok
      && RegisterHandler(s1, request, lookup2, key2, insert2) == (Response(BadRequest, Empty), s1)
  {
    var (first, s1) := RegisterHandler(s, request, Completes, key1, Completes);
    assert key1 in s1.accounts && HasUsername(s1.accounts[key1], request.username);
  }

  /** A registered account can log in with the credentials it registered
      with, and the login returns exactly the account registration returned. */
  lemma RegisterThenLogin(s: Store, request: Account, key: int, lookup: Io)
    requires RegisterHandler(s, request, lookup, key, Completes).0.status == Ok
    ensures var (registered, s1) := RegisterHandler(s, request, lookup, key, Completes);
      LoginHandler(s1, request, Completes) == (Response(Ok, registered.body), s1)
  {
    var (registered, s1) := RegisterHandler(s, request, lookup, key, Completes);
    InsertedAccountFound(s.accounts, request, key, Completes);
  }

  /** A created message can be fetched back by the id the response gave. */
  lemma CreateThenGet(s: Store, request: Message, key: int, io: Io)
    requires CreateMessageHandler(s, request, key, io).0.status == Ok
    ensures var (created, s1) := CreateMessageHandler(s, request, key, io);
      GetMessageByIdHandler(s1, created.body.message.messageId, Completes).0 == created
  {
  }

  /** After a successful update, fetching the message shows the new text with
      the original poster and timestamp. */
  lemma UpdateThenGet(s: Store, messageId: int, request: Message, readBack: Io)
    requires messageId in s.messages
    requires MessageService.ValidText(request.messageText)
    ensures var (updated, s1) := UpdateMessageHandler(s, messageId, request, Completes, readBack);
      var fetched := GetMessageByIdHandler(s1, messageId, Completes).0.body;
      && fetched.MessageJson?
      && fetched.message.messageText == request.messageText
      && fetched.message.postedBy == s.messages[messageId].postedBy
      && fetched.message.timePostedEpoch == s.messages[messageId].timePostedEpoch
  {
  }

  /** Deleting twice: the first answer carries the deleted row, the second
      is 200 with an empty body and leaves the store alone. */
  lemma DeleteTwice(s: Store, messageId: int, read2: Io, delete2: Io)
    requires messageId in s.messages
    ensures var (first, s1) := DeleteMessageHandler(s, messageId, Completes, Completes);
      && first == Response(Ok, MessageJson(LoadMessage(s.messages, messageId)))
      && DeleteMessageHandler(s1, messageId, read2, delete2) == (Response(Ok, Empty), s1)
  {
  }

  /** Registration keeps the store consistent: a row is added only after
      the account passed validation and the lookup found no row with its
      username, and a failed lookup refuses. */
  lemma RegisterPreservesConsistency(s: Store, request: Account, lookup: Io, key: int, insert: Io)
    requires Consistent(s)
    ensures Consistent(RegisterHandler(s, request, lookup, key, insert).1)
  {
    var (response, s1) := RegisterHandler(s, request, lookup, key, insert);
    if response.status == Ok {
      var id := response.body.account.accountId;
      assert forall k :: k in s.accounts ==> !HasUsername(s.accounts[k], request.username);
      assert s1.accounts == s.accounts[id := AccountRowOf(request)];
      forall k1, k2 | k1 in s1.accounts && k2 in s1.accounts && HasUsername(s1.accounts[k1], s1.accounts[k2].username)
        ensures k1 == k2
      {
        if k1 != id && k2 != id {
          assert HasUsername(s.accounts[k1], s.accounts[k2].username);
        } else if k1 == id && k2 != id {
          assert HasUsername(s.accounts[k2], request.username);
        }
      }
      assert forall k :: k in s1.accounts ==> IsValidAccount(LoadAccount(s1.accounts, k));
    }
  }

  /** Message creation keeps the store consistent. */
  lemma CreatePreservesConsistency(s: Store, request: Message, key: int, io: Io)
    requires Consistent(s)
    ensures Consistent(CreateMessageHandler(s, request, key, io).1)
  {
  }

  /** Message update keeps the store consistent, also when the read-back
      fails after the new text is stored. */
  lemma UpdatePreservesConsistency(s: Store, messageId: int, request: Message, update: Io, readBack: Io)
    requires Consistent(s)
    ensures Consistent(UpdateMessageHandler(s, messageId, request, update, readBack).1)
  {
  }

  /** Message deletion keeps the store consistent. */
  lemma DeletePreservesConsistency(s: Store, messageId: int, read: Io, delete: Io)
    requires Consistent(s)
    ensures Consistent(DeleteMessageHandler(s, messageId, read, delete).1)
  {
  }
}
