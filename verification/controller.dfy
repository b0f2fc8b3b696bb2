/** The eight request handlers of the social-media API, each a function from
    the store and the already decoded request to the response and the store
    after. A handler answers with a status and a body; `Empty` is the empty
    response body, whether the handler wrote `""` or wrote nothing. */
module SocialMediaController {
  import opened Sql
  import opened AccountDao
  import opened MessageDao
  import opened AccountService
  import MessageService

  const Ok := 200
  const BadRequest := 400
  const Unauthorized := 401
  const InternalError := 500

  datatype Body =
    | Empty
    | AccountJson(account: Account)
    | MessageJson(message: Message)
    | MessagesJson(messages: seq<Message>)

  datatype Response = Response(status: int, body: Body)

  /** The two tables of the database. */
  datatype Store = Store(accounts: AccountTable, messages: MessageTable)

  /** No two stored accounts share a username. */
  predicate UniqueUsernames(accounts: AccountTable) {
    forall k1, k2 :: k1 in accounts && k2 in accounts && HasUsername(accounts[k1], accounts[k2].username) ==> k1 == k2
  }

  /** What the handlers keep true of the store: every account passed
      registration, usernames are unique, every message passed validation. */
  predicate Consistent(s: Store) {
    && (forall k :: k in s.accounts ==> IsValidAccount(LoadAccount(s.accounts, k)))
    && UniqueUsernames(s.accounts)
    && MessageService.AllValid(s.messages)
  }

  /** POST /register: 400 for an invalid or taken username (a failed lookup
      counts as taken), 200 with the stored account, 500 when the insert
      fails. */
  function RegisterHandler(s: Store, request: Account, lookup: Io, key: int, insert: Io): (r: (Response, Store))
    ensures r.0.status in {Ok, BadRequest, InternalError}
    ensures r.0.status == BadRequest <==>
      !IsValidAccount(request) || lookup == Raises
      || exists k :: k in s.accounts && HasUsername(s.accounts[k], request.username)
    ensures r.0.status == InternalError <==>
      r.0.status != BadRequest && (insert == Raises || key in s.accounts)
    ensures r.0.status != Ok ==> r.0.body == Empty && r.1 == s
    ensures r.0.status == Ok ==>
      && r.0.body.AccountJson?
      && r.0.body.account.accountId !in s.accounts
      && r.0.body.account.username == request.username
      && r.0.body.account.password == request.password
      && r.1 == s.(accounts := s.accounts[r.0.body.account.accountId := AccountRowOf(request)])
  {
    if !IsValidAccount(request) || IsUsernameTaken(s.accounts, request.username, lookup) then
      (Response(BadRequest, Empty), s)
    else
      var (registered, accounts) := RegisterAccount(s.accounts, request, key, insert);
      if registered.Some? then (Response(Ok, AccountJson(registered.value)), s.(accounts := accounts))
      else (Response(InternalError, Empty), s)
  }

  /** POST /login: 200 with the matching stored account, else 401. */
  function LoginHandler(s: Store, request: Account, io: Io): (r: (Response, Store))
    ensures r.1 == s
    ensures r.0.status == Ok <==>
      io == Completes && exists k :: k in s.accounts && HasCredentials(s.accounts[k], request.username, request.password)
    ensures r.0.status != Ok ==> r.0 == Response(Unauthorized, Empty)
    ensures r.0.status == Ok ==>
      && r.0.body.AccountJson?
      && r.0.body.account.accountId in s.accounts
      && LoadAccount(s.accounts, r.0.body.account.accountId) == r.0.body.account
      && HasCredentials(s.accounts[r.0.body.account.accountId], request.username, request.password)
  {
    match Login(s.accounts, request.username, request.password, io)
    case Some(account) => (Response(Ok, AccountJson(account)), s)
    case None => (Response(Unauthorized, Empty), s)
  }

  /** POST /messages: 200 with the stored message, else 400 with an empty
      body and the store untouched. */
  function CreateMessageHandler(s: Store, request: Message, key: int, io: Io): (r: (Response, Store))
    ensures r.0.status == Ok <==>
      && MessageService.ValidText(request.messageText)
      && MessageService.ValidPoster(request.postedBy)
      && io == Completes && key !in s.messages
    ensures r.0.status != Ok ==> r == (Response(BadRequest, Empty), s)
    ensures r.0.status == Ok ==>
      && r.0.body.MessageJson?
      && r.0.body.message.messageId !in s.messages
      && MessageRowOf(r.0.body.message) == MessageRowOf(request)
      && r.1 == s.(messages := s.messages[r.0.body.message.messageId := MessageRowOf(request)])
  {
    var (created, messages) := MessageService.CreateMessage(s.messages, request, key, io);
    if created.Some? then (Response(Ok, MessageJson(created.value)), s.(messages := messages))
    else (Response(BadRequest, Empty), s)
  }

  /** GET /messages: always 200 with the list, store untouched; a failed
      query answers with an empty list, like an empty table. */
  function GetAllMessagesHandler(s: Store, io: Io): (r: (Response, Store))
    ensures r.1 == s
    ensures r.0.status == Ok && r.0.body.MessagesJson?
    ensures io == Raises ==> r.0.body == MessagesJson([])
    ensures io == Completes ==>
      && AllStored(s.messages, r.0.body.messages)
      && InStorageOrder(r.0.body.messages)
      && forall k :: k in s.messages ==> LoadMessage(s.messages, k) in r.0.body.messages
  {
    (Response(Ok, MessagesJson(MessageService.GetAllMessages(s.messages, io))), s)
  }

  /** GET /accounts/{user_id}/messages: always 200 with that user's
      messages, store untouched; a failed query answers with an empty list. */
  function GetMessagesByUserHandler(s: Store, userId: int, io: Io): (r: (Response, Store))
    ensures r.1 == s
    ensures r.0.status == Ok && r.0.body.MessagesJson?
    ensures forall m :: m in r.0.body.messages ==> m.postedBy == userId
    ensures io == Raises ==> r.0.body == MessagesJson([])
    ensures io == Completes ==>
      && AllStored(s.messages, r.0.body.messages)
      && InStorageOrder(r.0.body.messages)
      && forall k :: k in s.messages && s.messages[k].postedBy == userId ==> LoadMessage(s.messages, k) in r.0.body.messages
  {
    (Response(Ok, MessagesJson(MessageService.GetMessagesByUser(s.messages, userId, io))), s)
  }

  /** GET /messages/{message_id}: always 200; the body is empty exactly when
      no message has the id (or the query fails). */
  function GetMessageByIdHandler(s: Store, messageId: int, io: Io): (r: (Response, Store))
    ensures r.1 == s
    ensures r.0.status == Ok
    ensures r.0.body == Empty <==> io == Raises || messageId !in s.messages
    ensures r.0.body != Empty ==> r.0.body == MessageJson(LoadMessage(s.messages, messageId))
  {
    match MessageService.GetMessageById(s.messages, messageId, io)
    case Some(message) => (Response(Ok, MessageJson(message)), s)
    case None => (Response(Ok, Empty), s)
  }

  /** PATCH /messages/{message_id}: 200 with the updated message, else 400
      with an empty body. Only `message_text` of that one row changes. */
  function UpdateMessageHandler(s: Store, messageId: int, request: Message, update: Io, readBack: Io): (r: (Response, Store))
    ensures r.0.status in {Ok, BadRequest}
    ensures r.0.status == Ok <==>
      MessageService.ValidText(request.messageText) && messageId in s.messages && update == Completes && readBack == Completes
    ensures r.0.status == BadRequest ==> r.0.body == Empty
    ensures r.0.status == Ok ==>
      r.0.body == MessageJson(Message(messageId, s.messages[messageId].postedBy, request.messageText, s.messages[messageId].timePostedEpoch))
    ensures r.1.accounts == s.accounts
    ensures !MessageService.ValidText(request.messageText) || messageId !in s.messages || update == Raises ==> r.1 == s
    ensures MessageService.ValidText(request.messageText) && messageId in s.messages && update == Completes ==>
      r.1.messages == s.messages[messageId := s.messages[messageId].(messageText := request.messageText)]
  {
    var (updated, messages) := MessageService.UpdateMessage(s.messages, messageId, request.messageText, update, readBack);
    if updated.Some? then (Response(Ok, MessageJson(updated.value)), s.(messages := messages))
    else (Response(BadRequest, Empty), s.(messages := messages))
  }

  /** DELETE /messages/{message_id}: reads the row, deletes it, and answers
      200 with the row as it was before; 200 with an empty body when there
      was no such row or a step failed (the delete is not attempted when the
      read finds nothing). */
  function DeleteMessageHandler(s: Store, messageId: int, read: Io, delete: Io): (r: (Response, Store))
    ensures r.0.status == Ok
    ensures r.1.accounts == s.accounts
    ensures r.0.body != Empty <==> messageId in s.messages && read == Completes && delete == Completes
    ensures r.0.body != Empty ==>
      && r.0.body == MessageJson(LoadMessage(s.messages, messageId))
      && r.1.messages == s.messages - {messageId}
    ensures r.0.body == Empty ==> r.1 == s
  {
    match MessageService.GetMessageById(s.messages, messageId, read)
    case None => (Response(Ok, Empty), s)
    case Some(snapshot) =>
      var (deleted, messages) := MessageService.DeleteMessage(s.messages, messageId, delete);
      if deleted then (Response(Ok, MessageJson(snapshot)), s.(messages := messages))
      else (Response(Ok, Empty), s)
  }
}
