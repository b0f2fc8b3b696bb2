/** Message business rules: the text and poster checks in front of the
    accessor's insert and update, and thin delegations for the rest. */
module MessageService {
  import opened Sql
  import opened JavaString
  import opened MessageDao

  const MaxTextLength := 255

  /** The text check of `createMessage` and `updateMessage`: non-null,
      non-blank, at most 255 UTF-16 code units. */
  predicate ValidText(text: Text) {
    text.Some? && !IsBlank(text.value) && Utf16Length(text.value) <= MaxTextLength
  }

  /** The poster check of `createMessage`: only `posted_by > 0`; whether an
      account with that id exists is not looked at. */
  predicate ValidPoster(postedBy: int) {
    postedBy > 0
  }

  /** Every stored message passed both checks. */
  predicate AllValid(messages: MessageTable) {
    forall k :: k in messages ==> ValidText(messages[k].messageText) && ValidPoster(messages[k].postedBy)
  }

  /** `createMessage`: refuses invalid text or poster without touching the
      store; otherwise it is the accessor's insert. */
  function CreateMessage(messages: MessageTable, message: Message, key: int, io: Io): (r: (Option<Message>, MessageTable))
    ensures !ValidText(message.messageText) || !ValidPoster(message.postedBy) ==> r == (None, messages)
    ensures ValidText(message.messageText) && ValidPoster(message.postedBy) ==> r == InsertMessage(messages, message, key, io)
    ensures r.0.Some? ==> ValidText(r.0.value.messageText) && ValidPoster(r.0.value.postedBy)
    ensures AllValid(messages) ==> AllValid(r.1)
  {
    if !ValidText(message.messageText) || !ValidPoster(message.postedBy) then (None, messages)
    else InsertMessage(messages, message, key, io)
  }

  /** `getAllMessages` */
  function GetAllMessages(messages: MessageTable, io: Io): (ms: seq<Message>)
    ensures ms == MessageDao.GetAllMessages(messages, io)
    ensures AllValid(messages) ==> forall m :: m in ms ==> ValidText(m.messageText)
  {
    MessageDao.GetAllMessages(messages, io)
  }

  /** `getMessagesByUser` */
  function GetMessagesByUser(messages: MessageTable, userId: int, io: Io): (ms: seq<Message>)
    ensures ms == MessageDao.GetMessagesByUser(messages, userId, io)
    ensures forall m :: m in ms ==> m.postedBy == userId
  {
    MessageDao.GetMessagesByUser(messages, userId, io)
  }

  /** `getMessageById` */
  function GetMessageById(messages: MessageTable, messageId: int, io: Io): (r: Option<Message>)
    ensures r == MessageDao.GetMessageById(messages, messageId, io)
    ensures r.Some? ==> r.value.messageId == messageId
  {
    MessageDao.GetMessageById(messages, messageId, io)
  }

  /** `updateMessage`: refuses invalid text without touching the store;
      otherwise it is the accessor's update. */
  function UpdateMessage(messages: MessageTable, messageId: int, newText: Text, update: Io, readBack: Io): (r: (Option<Message>, MessageTable))
    ensures !ValidText(newText) ==> r == (None, messages)
    ensures ValidText(newText) ==> r == MessageDao.UpdateMessage(messages, messageId, newText, update, readBack)
    ensures r.0.Some? ==> r.0.value.messageText == newText && ValidText(newText)
    ensures AllValid(messages) ==> AllValid(r.1)
  {
    if !ValidText(newText) then (None, messages)
    else MessageDao.UpdateMessage(messages, messageId, newText, update, readBack)
  }

  /** `deleteMessage` */
  function DeleteMessage(messages: MessageTable, messageId: int, io: Io): (r: (bool, MessageTable))
    ensures r == MessageDao.DeleteMessage(messages, messageId, io)
    ensures AllValid(messages) ==> AllValid(r.1)
  {
    MessageDao.DeleteMessage(messages, messageId, io)
  }

  /** The 255 bound is reached: non-blank text of 255 Basic Multilingual
      Plane characters passes. */
  lemma TextLengthBound(text: string)
    requires forall i :: 0 <= i < |text| ==> InBasicPlane(text[i])
    requires !IsBlank(text)
    ensures |text| == 255 ==> ValidText(Some(text))
  {
  }

  /** Text of more than 255 code points is refused, whatever its
      characters: it has at least as many code units. */
  lemma LongTextRejected(text: string)
    requires |text| > MaxTextLength
    ensures !ValidText(Some(text))
  {
  }

  /** Null, empty and all-whitespace text are refused. */
  lemma BlankTextRejected(text: Text)
    requires text.None? || IsBlank(text.value)
    ensures !ValidText(text)
  {
  }
}
