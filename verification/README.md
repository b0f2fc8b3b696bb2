# Social-media backend: a Dafny model

This project models the core of a small social-media REST backend. The
backend has three layers:

- **Handlers.** `SocialMediaController` turns each request into a status code and a body.
- **Services.** `AccountService` and `MessageService` hold the validation rules.
- **Accessors.** `AccountDAO` and `MessageDAO` each issue SQL against one table, `account` or `message`.

The model states and proves what each layer promises, and what sequences of
requests do.

- `sql.dfy` (module `Sql`): the database as values. A table is a
  `map<int, Row>` from primary key to the other columns. `SELECT`, `INSERT`,
  `UPDATE` and `DELETE` are pure functions over it. A Java or SQL null
  string is `None`, and `column = ?` never matches NULL. Every JDBC
  statement takes an `Io` argument that says whether it completes or throws
  `SQLException`. An insert also takes the key the database generates; a
  key already in use violates the primary key and throws. Result sets come
  back in ascending key order, and each row appears once.
- `java_string.dfy` (module `JavaString`): `String.isBlank()` means every code
  point satisfies `Character.isWhitespace`, with the set of code points
  written out. `String.length()` counts UTF-16 code units (`Utf16Length`).
- `account_dao.dfy`, `message_dao.dfy`: the nine accessor methods, three on `account` and six on
  `message`.
- `account_service.dfy`, `message_service.dfy`: the validation predicates
  (`IsValidAccount`, `ValidText`, `ValidPoster`) and the service methods.
- `controller.dfy`: the eight handlers. Each is a function from the store
  (`Store(accounts, messages)`) and the decoded request to `(Response,
  Store)`. The store also carries an invariant, `Consistent`: every account
  is valid, no two accounts share a username, and every message is valid.
- `api_properties.dfy`: properties of request sequences. Registering
  twice gives 200 and then 400. Register-then-login returns the registered
  account. Create-then-get and update-then-get round-trip. Deleting twice
  returns the row and then an empty body. Every mutating handler preserves
  `Consistent`.

The storage outcomes and generated keys are arguments, so each contract
covers the storage-error paths too:

- `usernameExists` fails closed, so a failed lookup yields 400.
- A failed insert during registration yields 500.
- A failed read-back after a successful `UPDATE` yields 400, even though the
  new text is already stored. `UpdateMessageHandler` and
  `MessageDao.UpdateMessage` state this explicitly.

## Model

| member | source | states |
|---|---|---|
| JavaString.Utf16Length | src/main/java/Service/MessageService.java:23 | `length()` counts code units: between the number of code points and twice that, exactly the number of code points when all are in the Basic Multilingual Plane |
| AccountService.IsValidAccount | src/main/java/Service/AccountService.java:20-23 | a username that is non-null and not blank, and a non-null password of at least 4 UTF-16 code units |
| MessageService.ValidText | src/main/java/Service/MessageService.java:22-23 | text that is non-null, not blank, and at most 255 UTF-16 code units, the guard on both create and update |
| MessageService.ValidPoster | src/main/java/Service/MessageService.java:23 | a `posted_by` greater than 0, with no check that the account exists |
| AccountDao.UsernameExists | src/main/java/DAO/AccountDAO.java:16-30 | true iff the query throws (fail-closed) or some stored row has exactly that non-null username |
| AccountDao.InsertAccount | src/main/java/DAO/AccountDAO.java:35-55 | on success returns the input account under an id not previously in the table, and the table gains exactly that one row; on a thrown INSERT returns null and leaves the table unchanged |
| AccountDao.GetAccountByCredentials | src/main/java/DAO/AccountDAO.java:60-82 | returns an account iff the query completes and some row matches both username and password exactly; the result is such a stored row, the first in storage order |
| AccountDao.InsertedUsernameExists | src/main/java/DAO/AccountDAO.java:39-47 | after a successful insert, `usernameExists` on the inserted non-null username is true |
| AccountDao.InsertedAccountFound | src/main/java/DAO/AccountDAO.java:60-75 | after inserting an account whose username was free, looking up its credentials returns exactly the inserted account |
| MessageDao.ReadAll | src/main/java/DAO/MessageDAO.java:53-61 | reading a result set yields one message per row, each a stored row read back unchanged, in the result set's order |
| MessageDao.InsertMessage | src/main/java/DAO/MessageDAO.java:21-39 | on success returns a message whose id was not in the table, with the input's `posted_by`, text and timestamp, and the table gains exactly that row; on failure null and the table unchanged |
| MessageDao.GetAllMessages | src/main/java/DAO/MessageDAO.java:46-66 | every stored message is listed, every listed message is stored, each once in storage order; empty list when the query throws |
| MessageDao.GetMessagesByUser | src/main/java/DAO/MessageDAO.java:74-95 | every listed message has `posted_by == userId` and is stored; every stored row with that poster is listed; storage order |
| MessageDao.GetMessageById | src/main/java/DAO/MessageDAO.java:103-122 | returns the stored row iff the id is present and the query completes, else null |
| MessageDao.UpdateMessage | src/main/java/DAO/MessageDAO.java:131-146 | on a present id, only that row's `message_text` changes, and the updated row is returned when the read-back completes; on an absent id or a thrown UPDATE returns null and leaves the table unchanged |
| MessageDao.DeleteMessage | src/main/java/DAO/MessageDAO.java:154-166 | returns true iff the id was present and the statement completed; then exactly that key is removed; other rows never change |
| MessageDao.DeleteTwice | src/main/java/DAO/MessageDAO.java:154-166 | after a completed delete the id is absent, so a second delete returns false and changes nothing |
| AccountService.IsUsernameTaken | src/main/java/Service/AccountService.java:31-33 | equals the accessor's `usernameExists`: true iff a row has the username or the query throws |
| AccountService.RegisterAccount | src/main/java/Service/AccountService.java:41-43 | equals the accessor's insert: a fresh id, the same username and password, one row added |
| AccountService.Login | src/main/java/Service/AccountService.java:52-54 | non-null iff the query completes and some stored account has exactly this username and password |
| AccountService.PasswordLengthBound | src/main/java/Service/AccountService.java:20-23 | a password of 4 code units is accepted iff the username is non-null and non-blank; one of 3 is always rejected |
| AccountService.BlankUsernameRejected | src/main/java/Service/AccountService.java:21 | a null, empty or all-whitespace username is rejected whatever the password |
| AccountService.SurrogatePairsCountTwice | src/main/java/Service/AccountService.java:20-23 | with any non-blank username, a password of two code points outside the Basic Multilingual Plane is four code units long and passes |
| MessageService.CreateMessage | src/main/java/Service/MessageService.java:21-27 | invalid text or `posted_by <= 0` gives null with the table unchanged; otherwise exactly the accessor's insert; only valid messages are ever stored |
| MessageService.GetAllMessages | src/main/java/Service/MessageService.java:34-36 | the accessor's list, unchanged |
| MessageService.GetMessagesByUser | src/main/java/Service/MessageService.java:44-46 | the accessor's list, all of it from that poster |
| MessageService.GetMessageById | src/main/java/Service/MessageService.java:54-56 | the accessor's lookup; a result carries the requested id |
| MessageService.UpdateMessage | src/main/java/Service/MessageService.java:65-70 | invalid new text gives null with the table unchanged; otherwise exactly the accessor's update; a result carries the new text |
| MessageService.DeleteMessage | src/main/java/Service/MessageService.java:78-80 | the accessor's delete; the validity of stored messages is kept |
| MessageService.TextLengthBound | src/main/java/Service/MessageService.java:23 | non-blank text of 255 Basic Multilingual Plane characters passes |
| MessageService.LongTextRejected | src/main/java/Service/MessageService.java:23 | any text of more than 255 code points is rejected, whatever its characters |
| MessageService.BlankTextRejected | src/main/java/Service/MessageService.java:22 | null, empty or all-whitespace text is rejected |
| SocialMediaController.RegisterHandler | src/main/java/Controller/SocialMediaController.java:33-46 | 400 without inserting iff the account is invalid, the username is taken, or the lookup fails; 500 with nothing stored iff the INSERT statement throws; otherwise 200 with the stored account under a fresh id |
| SocialMediaController.LoginHandler | src/main/java/Controller/SocialMediaController.java:51-60 | 200 with the matching stored account iff the credentials match a row, else 401 with an empty body; store untouched |
| SocialMediaController.CreateMessageHandler | src/main/java/Controller/SocialMediaController.java:65-75 | 200 with the new message iff text and poster are valid and the insert succeeds; otherwise 400, empty body, store untouched |
| SocialMediaController.GetAllMessagesHandler | src/main/java/Controller/SocialMediaController.java:80-84 | always 200 with the full list; a failed query gives 200 with an empty list; store untouched |
| SocialMediaController.GetMessagesByUserHandler | src/main/java/Controller/SocialMediaController.java:89-94 | always 200 with exactly that user's stored messages, each once in storage order; a failed query gives 200 with an empty list; store untouched |
| SocialMediaController.GetMessageByIdHandler | src/main/java/Controller/SocialMediaController.java:99-109 | always 200; the body is empty iff the id is absent or the query fails, else it is the stored message |
| SocialMediaController.UpdateMessageHandler | src/main/java/Controller/SocialMediaController.java:114-125 | 200 with the updated message iff the text is valid, the id is present and both statements complete; else 400 with an empty body; only that row's text ever changes |
| SocialMediaController.DeleteMessageHandler | src/main/java/Controller/SocialMediaController.java:130-141 | always 200; the body is the pre-delete row iff it existed and both statements completed, and then exactly that row is removed; otherwise empty body and store untouched |
| ApiProperties.RegisterTwice | src/main/java/Controller/SocialMediaController.java:35-42 | the same valid, free username registered twice gives 200, then 400 with no further change |
| ApiProperties.RegisterThenLogin | src/main/java/Controller/SocialMediaController.java:33-60 | after a successful registration, logging in with the same credentials returns 200 and the very account registration returned |
| ApiProperties.CreateThenGet | src/main/java/Controller/SocialMediaController.java:65-109 | a created message is returned unchanged by a later fetch of its id |
| ApiProperties.UpdateThenGet | src/main/java/DAO/MessageDAO.java:131-141 | after an update, a fetch shows the new text with the original `posted_by` and timestamp |
| ApiProperties.DeleteTwice | src/main/java/Controller/SocialMediaController.java:130-141 | the first delete answers with the row, the second with 200 and an empty body and no change |
| ApiProperties.RegisterPreservesConsistency | src/main/java/Controller/SocialMediaController.java:33-46 | registration keeps every account valid and usernames unique, even when the lookup fails |
| ApiProperties.CreatePreservesConsistency | src/main/java/Service/MessageService.java:21-27 | message creation keeps every stored message valid |
| ApiProperties.UpdatePreservesConsistency | src/main/java/Service/MessageService.java:65-70 | message update keeps every stored message valid, also when the read-back fails |
| ApiProperties.DeletePreservesConsistency | src/main/java/Controller/SocialMediaController.java:130-141 | message deletion keeps the store consistent |

## Left out

- Route registration (`startAPI`), JSON decoding and encoding, and `Integer.parseInt` on path parameters are framework plumbing. Handlers take the already decoded account, message or integer id. A JSON field that is missing becomes null, as `None`.
- Connections, prepared statements and `printStackTrace` are I/O. What matters of them is whether each statement completes, which is the `Io` argument.
- A `close()` that throws after a completed statement is modelled only where its outcome coincides with a modelled one. `AccountDAO` swallows such a failure in its `finally` blocks (`src/main/java/DAO/AccountDAO.java:28`, `:52`, `:79`), so there it changes nothing. `MessageDAO` uses try-with-resources, so its `catch (SQLException e)` also catches a failing implicit `conn.close()`. The outcomes are:
  - `getAllMessages` and `getMessagesByUser` still return the full list, as when the query completes.
  - `getMessageById` returns null, as when the query throws.
  - `updateMessage` returns null with the new text stored, as when the read-back throws.
  - `insertMessage` returns null with the row stored (`src/main/java/DAO/MessageDAO.java:22-38`). `MessageDao.InsertMessage`'s "table unchanged on null" and `SocialMediaController.CreateMessageHandler`'s "400 with the store untouched" do not hold then.
  - `deleteMessage` returns false with the row deleted (`src/main/java/DAO/MessageDAO.java:155-165`). `MessageDao.DeleteMessage`'s `!r.0 ==> r.1 == t` and `SocialMediaController.DeleteMessageHandler`'s "empty body ⇒ store untouched" do not hold then: the code answers 200 with an empty body and the row gone.
- The database's key-generation policy is not modelled. The generated key is an argument. Freshness follows from the primary key, not from auto-increment order.
- An INSERT whose statement completes but whose key read-back then fails is not modelled. In the code, `getGeneratedKeys()`, `rs.next()` or `getInt` can throw, or `rs.next()` can be false (`src/main/java/DAO/AccountDAO.java:43-49`, `src/main/java/DAO/MessageDAO.java:28-35`). The method then returns null although the row is already stored. In the model, a null insert result always means the INSERT statement itself threw, and the table is unchanged. So `RegisterHandler`'s "500 with nothing stored" and `CreateMessageHandler`'s "400 with the store untouched" hold only for the modelled outcomes. After such a failure the code would answer 500 or 400 with the row stored.
- A query that throws part-way through reading rows would return the rows read so far. The model only covers a query that throws before the first row, which gives an empty list.
- Storage order is taken to be ascending primary key. The SQL has no `ORDER BY`, so the database promises no order. These ensures depend on the assumed order:
  - `AccountDao.GetAccountByCredentials`: the matching row with the smallest `account_id` is returned.
  - `InStorageOrder`, which means strictly ascending `message_id`. It appears in `MessageDao.ReadAll`, `MessageDao.GetAllMessages`, `MessageDao.GetMessagesByUser`, `SocialMediaController.GetAllMessagesHandler` and `SocialMediaController.GetMessagesByUserHandler`.

  Under any other order, the lists still hold each matching row once, and `GetAccountByCredentials` still returns some matching row, not necessarily the one with the least key.
- Java `int` and `long` widths are not modelled. Ids, `posted_by` and timestamps are unbounded integers, and nothing does arithmetic on them.
- Concurrency, including the check-then-insert race between two registrations, is left out. The model is one request at a time.
- `src/main/java/Service/SocialMediaService.java` is left out. The controller does not use it, and it calls accessor methods that do not exist.
- Whether `posted_by` names an existing account is not checked, because the code does not check it.
- Java strings holding an unpaired surrogate (U+D800 to U+DFFF) are not modelled. JSON such as `"\ud83d"` decodes to one. Dafny's `char` excludes these code points, so such a username, password or text cannot be written. In Java, `length()` counts an unpaired surrogate as one unit, and `isBlank()` treats it as non-whitespace.
- `IsWhitespace` lists the whitespace code points of current Unicode. A different Unicode version of the JVM could differ on a few separators.
