/** Account business rules: what a registrable account is, and thin
    delegations to the account accessor. */
module AccountService {
  import opened Sql
  import opened JavaString
  import opened AccountDao

  const MinPasswordLength := 4

  /** `isValidAccount`: a non-null, non-blank username and a non-null
      password of at least four UTF-16 code units. It reads only the account,
      never the store. */
  predicate IsValidAccount(account: Account) {
    && account.username.Some?
    && !IsBlank(account.username.value)
    && account.password.Some?
    && Utf16Length(account.password.value) >= MinPasswordLength
  }

  /** `isUsernameTaken`: the accessor's answer, failing closed on a storage
      error. */
  function IsUsernameTaken(accounts: AccountTable, username: Text, io: Io): (taken: bool)
    ensures taken == UsernameExists(accounts, username, io)
    ensures taken <==> io == Raises || exists k :: k in accounts && HasUsername(accounts[k], username)
  {
    UsernameExists(accounts, username, io)
  }

  /** `registerAccount`: inserts the account as given; the stored account
      carries a fresh id and the same username and password. */
  function RegisterAccount(accounts: AccountTable, account: Account, key: int, io: Io): (r: (Option<Account>, AccountTable))
    ensures r == InsertAccount(accounts, account, key, io)
    ensures r.0.Some? ==>
      && r.0.value.accountId !in accounts
      && AccountRowOf(r.0.value) == AccountRowOf(account)
      && r.1 == accounts[r.0.value.accountId := AccountRowOf(account)]
  {
    InsertAccount(accounts, account, key, io)
  }

  /** `login`: an account is returned exactly when some stored row has this
      username and this password (plain-text comparison). */
  function Login(accounts: AccountTable, username: Text, password: Text, io: Io): (r: Option<Account>)
    ensures r == GetAccountByCredentials(accounts, username, password, io)
    ensures r.Some? <==> io == Completes && exists k :: k in accounts && HasCredentials(accounts[k], username, password)
    ensures r.Some? ==> r.value.accountId in accounts && HasCredentials(accounts[r.value.accountId], username, password)
  {
    GetAccountByCredentials(accounts, username, password, io)
  }

  /** The password bound is exactly four: four code units pass and three do
      not, whatever the username. */
  lemma PasswordLengthBound(username: Text, password: string)
    ensures Utf16Length(password) == 3 ==> !IsValidAccount(Account(0, username, Some(password)))
    ensures Utf16Length(password) == 4 ==>
      (IsValidAccount(Account(0, username, Some(password))) <==> username.Some? && !IsBlank(username.value))
  {
  }

  /** A null, empty or all-whitespace username is refused, whatever the
      password. */
  lemma BlankUsernameRejected(username: Text, password: Text)
    requires username.None? || IsBlank(username.value)
    ensures !IsValidAccount(Account(0, username, password))
  {
  }

  /** `length()` counts UTF-16 code units, so any two code points outside the
      Basic Multilingual Plane (four code units) make a long enough password. */
  lemma SurrogatePairsCountTwice(username: string, password: string)
    requires !IsBlank(username)
    requires |password| == 2 && forall i :: 0 <= i < |password| ==> !InBasicPlane(password[i])
    ensures IsValidAccount(Account(0, Some(username), Some(password)))
  {
  }
}
