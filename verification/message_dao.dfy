/** The accessor for the
    `message(message_id, posted_by, message_text, time_posted_epoch)` table. */
module MessageDao {
  import opened Sql

  /** The non-key columns of a `message` row. */
  datatype MessageRow = MessageRow(postedBy: int, messageText: Text, timePostedEpoch: int)

  /** The `Message` object: `message_id` plus the three columns. */
  datatype Message = Message(messageId: int, postedBy: int, messageText: Text, timePostedEpoch: int)

  type MessageTable = Table<MessageRow>

  /** The row a message is stored as; its `message_id` is not written. */
  function MessageRowOf(m: Message): MessageRow {
    MessageRow(m.postedBy, m.messageText, m.timePostedEpoch)
  }

  /** The message a result-set row is read back as. */
  function MessageOf(e: Entry<MessageRow>): Message {
    Message(e.key, e.row.postedBy, e.row.messageText, e.row.timePostedEpoch)
  }

  /** The stored message with key `k`. */
  function LoadMessage(t: MessageTable, k: int): Message
    requires k in t
  {
    MessageOf(Entry(k, t[k]))
  }

  /** Every listed message is a stored row, read back as stored. */
  predicate AllStored(t: MessageTable, ms: seq<Message>) {
    forall m :: m in ms ==> m.messageId in t && LoadMessage(t, m.messageId) == m
  }

  /** Messages in storage order, so no row is listed twice. */
  predicate InStorageOrder(ms: seq<Message>) {
    forall i, j :: 0 <= i < j < |ms| ==> ms[i].messageId < ms[j].messageId
  }

  /** Reading a result set into a list, one `Message` per row. */
  function ReadAll(t: MessageTable, es: seq<Entry<MessageRow>>): (ms: seq<Message>)
    requires forall e :: e in es ==> Stored(t, e)
    ensures forall m :: m in ms ==> Entry(m.messageId, MessageRowOf(m)) in es
    ensures forall e :: e in es ==> MessageOf(e) in ms
    ensures AllStored(t, ms)
    ensures InKeyOrder(es) ==> InStorageOrder(ms)
  {
    var ms := seq(|es|, i requires 0 <= i < |es| => MessageOf(es[i]));
    forall m | m in ms
      ensures Entry(m.messageId, MessageRowOf(m)) in es
      ensures m.messageId in t && LoadMessage(t, m.messageId) == m
    {
      var i :| 0 <= i < |ms| && ms[i] == m;
      assert Entry(m.messageId, MessageRowOf(m)) == es[i];
      assert es[i] in es;
      assert Stored(t, es[i]);
      assert t[m.messageId] == MessageRowOf(m);
    }
    assert forall e :: e in es ==> MessageOf(e) in ms by {
      forall e | e in es ensures MessageOf(e) in ms {
        var i :| 0 <= i < |es| && es[i] == e;
        assert ms[i] == MessageOf(e);
      }
    }
    ms
  }

  /** `insertMessage`: the input message under the generated `message_id`,
      and the table after. `None` means the INSERT statement threw, either as
      `io` says or because `key` is already in use; the table is then
      unchanged. */
  function InsertMessage(t: MessageTable, message: Message, key: int, io: Io): (r: (Option<Message>, MessageTable))
    ensures r.0.Some? <==> io == Completes && key !in t
    ensures r.0.None? ==> r.1 == t
    ensures r.0.Some? ==>
      && r.0.value.messageId !in t
      && MessageRowOf(r.0.value) == MessageRowOf(message)
      && r.1.Keys == t.Keys + {r.0.value.messageId}
      && (forall k :: k in t ==> r.1[k] == t[k])
      && LoadMessage(r.1, r.0.value.messageId) == r.0.value
  {
    match InsertRow(t, MessageRowOf(message), key, io)
    case None => (None, t)
    case Some(t') => (Some(Message(key, message.postedBy, message.messageText, message.timePostedEpoch)), t')
  }

  /** `getAllMessages`: every stored message exactly once, in storage order;
      an empty list when the query throws. */
  function GetAllMessages(t: MessageTable, io: Io): (ms: seq<Message>)
    ensures io == Raises ==> ms == []
    ensures io == Completes ==> AllStored(t, ms) && InStorageOrder(ms)
    ensures io == Completes ==> forall k :: k in t ==> LoadMessage(t, k) in ms
  {
    match io
    case Raises => []
    case Completes =>
      ReadAll(t, Select(t, (k: int, row: MessageRow) => true))
  }

  /** `getMessagesByUser`: exactly the stored messages whose `posted_by` is
      `userId`, each once, in storage order; empty when the query throws. */
  function GetMessagesByUser(t: MessageTable, userId: int, io: Io): (ms: seq<Message>)
    ensures io == Raises ==> ms == []
    ensures io == Completes ==> AllStored(t, ms) && InStorageOrder(ms)
    ensures forall m :: m in ms ==> m.postedBy == userId
    ensures io == Completes ==> forall k :: k in t && t[k].postedBy == userId ==> LoadMessage(t, k) in ms
  {
    match io
    case Raises => []
    case Completes =>
      ReadAll(t, Select(t, (k: int, row: MessageRow) => row.postedBy == userId))
  }

  /** `getMessageById`: the stored message with this id, if there is one and
      the query completes. */
  function GetMessageById(t: MessageTable, messageId: int, io: Io): (r: Option<Message>)
    ensures r.Some? <==> io == Completes && messageId in t
    ensures r.Some? ==> r.value == LoadMessage(t, messageId)
  {
    match io
    case Raises => None
    case Completes =>
      var rows := Select(t, WhereKey(messageId));
      SelectEmpty(t, WhereKey(messageId));
      if rows == [] then None
      else
        assert rows[0] in rows;
        Some(MessageOf(rows[0]))
  }

  /** `updateMessage`: sets `message_text` on the row with this id and reads
      the row back with a second query. `None` when no row has the id, when
      the UPDATE throws, or when the read-back throws, in which last case
      the new text is nevertheless stored. */
  function UpdateMessage(t: MessageTable, messageId: int, newText: Text, update: Io, readBack: Io): (r: (Option<Message>, MessageTable))
    ensures update == Raises || messageId !in t ==> r == (None, t)
    ensures update == Completes && messageId in t ==>
      && r.1.Keys == t.Keys
      && r.1[messageId] == t[messageId].(messageText := newText)
      && (forall k :: k in t && k != messageId ==> r.1[k] == t[k])
    ensures r.0.Some? <==> update == Completes && readBack == Completes && messageId in t
    ensures r.0.Some? ==> r.0.value == Message(messageId, t[messageId].postedBy, newText, t[messageId].timePostedEpoch)
  {
    match update
    case Raises => (None, t)
    case Completes =>
      var setText := (row: MessageRow) => row.(messageText := newText);
      var (t', rowsAffected) := UpdateByKey(t, messageId, setText);
      if rowsAffected > 0 then (GetMessageById(t', messageId, readBack), t')
      else (None, t')
  }

  /** `deleteMessage`: removes the row with this id and reports whether a row
      was affected. */
  function DeleteMessage(t: MessageTable, messageId: int, io: Io): (r: (bool, MessageTable))
    ensures r.0 <==> io == Completes && messageId in t
    ensures r.0 ==> r.1.Keys == t.Keys - {messageId}
    ensures !r.0 ==> r.1 == t
    ensures forall k :: k in r.1 ==> r.1[k] == t[k]
  {
    match io
    case Raises => (false, t)
    case Completes =>
      var (t', rowsAffected) := DeleteByKey(t, messageId);
      (rowsAffected > 0, t')
  }

  /** Once a delete of an id has completed, the id is gone: a second delete
      affects no row and leaves the table as it is. */
  lemma DeleteTwice(t: MessageTable, messageId: int, second: Io)
    ensures var t1 := DeleteMessage(t, messageId, Completes).1;
      messageId !in t1 && DeleteMessage(t1, messageId, second) == (false, t1)
  {
  }
}
