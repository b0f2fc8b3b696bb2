/** The accessor for the `account(account_id, username, password)` table. */
module AccountDao {
  import opened Sql

  /** The non-key columns of an `account` row. */
  datatype AccountRow = AccountRow(username: Text, password: Text)

  /** The `Account` object: `account_id` plus the two columns. */
  datatype Account = Account(accountId: int, username: Text, password: Text)

  type AccountTable = Table<AccountRow>

  /** The row an account is stored as. */
  function AccountRowOf(a: Account): AccountRow {
    AccountRow(a.username, a.password)
  }

  /** The account a result-set row is read back as. */
  function AccountOf(e: Entry<AccountRow>): Account {
    Account(e.key, e.row.username, e.row.password)
  }

  /** The stored account with key `k`. */
  function LoadAccount(t: AccountTable, k: int): Account
    requires k in t
  {
    AccountOf(Entry(k, t[k]))
  }

  /** `WHERE username = ?` */
  predicate HasUsername(row: AccountRow, username: Text) {
    TextEquals(row.username, username)
  }

  /** `WHERE username = ? AND password = ?` */
  predicate HasCredentials(row: AccountRow, username: Text, password: Text) {
    TextEquals(row.username, username) && TextEquals(row.password, password)
  }

  /** `usernameExists`: is there a row with exactly this username? A failed
      query counts as taken, so registration fails closed. */
  function UsernameExists(t: AccountTable, username: Text, io: Io): (taken: bool)
    ensures taken <==> io == Raises || exists k :: k in t && HasUsername(t[k], username)
  {
    match io
    case Raises => true
    case Completes =>
      var rows := Select(t, (k, row) => HasUsername(row, username));
      SelectEmpty(t, (k, row) => HasUsername(row, username));
      rows != []
  }

  /** `insertAccount`: the input account with the generated `account_id`, and
      the table after. `None` means the INSERT statement threw, either as `io`
      says or because `key` is already in use; the table is then unchanged. */
  function InsertAccount(t: AccountTable, account: Account, key: int, io: Io): (r: (Option<Account>, AccountTable))
    ensures r.0.Some? <==> io == Completes && key !in t
    ensures r.0.None? ==> r.1 == t
    ensures r.0.Some? ==>
      && r.0.value.accountId !in t
      && r.0.value.username == account.username
      && r.0.value.password == account.password
      && r.1.Keys == t.Keys + {r.0.value.accountId}
      && (forall k :: k in t ==> r.1[k] == t[k])
      && LoadAccount(r.1, r.0.value.accountId) == r.0.value
  {
    match InsertRow(t, AccountRowOf(account), key, io)
    case None => (None, t)
    case Some(t') => (Some(account.(accountId := key)), t')
  }

  /** `getAccountByCredentials`: the first row, in storage order, whose
      username and password both equal the arguments. */
  function GetAccountByCredentials(t: AccountTable, username: Text, password: Text, io: Io): (r: Option<Account>)
    ensures r.Some? <==> io == Completes && exists k :: k in t && HasCredentials(t[k], username, password)
    ensures r.Some? ==>
      && r.value.accountId in t
      && HasCredentials(t[r.value.accountId], username, password)
      && LoadAccount(t, r.value.accountId) == r.value
    ensures r.Some? ==>
      forall k :: k in t && HasCredentials(t[k], username, password) ==> r.value.accountId <= k
  {
    match io
    case Raises => None
    case Completes =>
      var rows := Select(t, (k, row) => HasCredentials(row, username, password));
      SelectEmpty(t, (k, row) => HasCredentials(row, username, password));
      if rows == [] then None
      else
        assert rows[0] in rows;
        assert forall k :: k in t && HasCredentials(t[k], username, password) ==> rows[0].key <= k by {
          forall k | k in t && HasCredentials(t[k], username, password) ensures rows[0].key <= k {
            assert Entry(k, t[k]) in rows;
            var i :| 0 <= i < |rows| && rows[i] == Entry(k, t[k]);
            assert i == 0 || rows[0].key < rows[i].key;
          }
        }
        Some(AccountOf(rows[0]))
  }

  /** After a successful insert the username is taken, whatever was stored
      before: the fact registration relies on to refuse a second sign-up. */
  lemma InsertedUsernameExists(t: AccountTable, account: Account, key: int, io: Io, lookup: Io)
    requires account.username.Some?
    requires InsertAccount(t, account, key, io).0.Some?
    ensures UsernameExists(InsertAccount(t, account, key, io).1, account.username, lookup)
  {
    var t' := InsertAccount(t, account, key, io).1;
    assert key in t' && HasUsername(t'[key], account.username);
  }

  /** If no stored account had the username, the inserted account is the only
      row matching its own credentials, so looking them up returns it. */
  lemma InsertedAccountFound(t: AccountTable, account: Account, key: int, io: Io)
    requires account.username.Some? && account.password.Some?
    requires forall k :: k in t ==> !HasUsername(t[k], account.username)
    requires InsertAccount(t, account, key, io).0.Some?
    ensures GetAccountByCredentials(InsertAccount(t, account, key, io).1, account.username, account.password, Completes)
         == InsertAccount(t, account, key, io).0
  {
    var (a, t') := InsertAccount(t, account, key, io);
    assert key in t' && HasCredentials(t'[key], account.username, account.password);
    var found := GetAccountByCredentials(t', account.username, account.password, Completes);
    assert found.value.accountId == key;
  }
}
