/** AccountsRepositoryInMemory: the map from account id to the shared account
    object. `putIfAbsent`, `get`, `clear` and `compute` each become one
    sequential step; a `compute` whose lambda throws leaves the map as it was,
    and one whose lambda returns the passed account stores that account under the key. */
module Repository {
  import opened Errors
  import opened Domain
  import opened JavaStrings
  import LedgerSpec

  class AccountsRepositoryInMemory {
    var accounts: map<string, Account>

    constructor ()
      ensures accounts == map[]
    {
      accounts := map[];
    }

    /** Every account is stored under its own id. Creating, clearing and crediting
        keep this; a debit keeps it when the account id is already trimmed. */
    ghost predicate Keyed()
      reads this
    {
      forall k | k in accounts :: accounts[k].accountId == k
    }

    /** The account object is the one stored under its id. */
    ghost predicate Stores(account: Account)
      reads this
    {
      account.accountId in accounts && accounts[account.accountId] == account
    }

    /** The balances as a value: what the stored accounts hold, key by key. */
    ghost function Balances(): (l: LedgerSpec.Ledger)
      reads this, accounts.Values
      ensures l.Keys == accounts.Keys
    {
      map k | k in accounts :: accounts[k].balance
    }

    /** putIfAbsent: a new id is inserted with that very object; a taken id is
        refused and the stored account stays. */
    method CreateAccount(account: Account) returns (r: Result<()>)
      modifies this
      ensures account.accountId in old(accounts) ==>
        r == Err(DuplicateAccountId(DuplicateIdMessage(account.accountId))) && accounts == old(accounts)
      ensures account.accountId !in old(accounts) ==>
        r == Ok(()) && accounts == old(accounts)[account.accountId := account]
      ensures old(Keyed()) ==> Keyed()
      ensures r.Ok? ==> Balances() == old(Balances())[account.accountId := account.balance]
    {
      if account.accountId in accounts {
        return Err(DuplicateAccountId(DuplicateIdMessage(account.accountId)));
      }
      accounts := accounts[account.accountId := account];
      return Ok(());
    }

    /** get: the stored object, or null for an id that is not there. */
    function GetAccount(accountId: string): (r: Option<Account>)
      reads this
      ensures r.Some? <==> accountId in accounts
      ensures r.Some? ==> r.value == accounts[accountId]
      ensures r.Some? && Keyed() ==> r.value.accountId == accountId
    {
      if accountId in accounts then Some(accounts[accountId]) else None
    }

    /** clear: afterwards no id finds an account. */
    method ClearAccounts()
      modifies this
      ensures accounts == map[]
      ensures forall id :: GetAccount(id) == None
      ensures Keyed()
    {
      accounts := map[];
    }

    /** compute under the TRIMMED id: with enough funds the balance goes down by
        the amount and the account is stored under the trimmed id; otherwise the
        exception leaves balance and map as they were. Other accounts never change. */
    method DebitAccount(account: Account, amount: int) returns (r: Result<Account>)
      modifies this, account
      ensures old(account.balance) >= amount ==>
        && r == Ok(account)
        && account.balance == old(account.balance) - amount
        && accounts == old(accounts)[Trim(account.accountId) := account]
      ensures old(account.balance) < amount ==>
        && r == Err(InsufficientAmount(InsufficientBalanceMessage(account.accountId)))
        && account.balance == old(account.balance)
        && accounts == old(accounts)
      ensures old(Keyed()) ==> (Keyed() <==> r.Err? || IsTrimmed(account.accountId))
      ensures old(Keyed()) && old(Stores(account)) && IsTrimmed(account.accountId) ==>
        LedgerSpec.Debit(old(Balances()), account.accountId, amount)
          == if r.Ok? then Ok(Balances()) else Err(r.error)
    {
      ghost var tracked := Keyed() && Stores(account) && IsTrimmed(account.accountId);
      ghost var m, before := accounts, Balances();
      var key := Trim(account.accountId);
      if account.balance >= amount {
        account.balance := account.balance - amount;
        accounts := accounts[key := account];
        r := Ok(account);
        assert key in accounts && accounts[key] == account;
        if tracked {
          assert accounts == m;
          assert Balances() == before[account.accountId := before[account.accountId] - amount];
        }
      } else {
        r := Err(InsufficientAmount(InsufficientBalanceMessage(account.accountId)));
      }
    }

    /** compute under the id as it is: the balance goes up by the amount and the
        account is stored under its id. Other accounts never change. */
    method CreditAccount(account: Account, amount: int) returns (r: Account)
      modifies this, account
      ensures r == account && account.balance == old(account.balance) + amount
      ensures accounts == old(accounts)[account.accountId := account]
      ensures old(Keyed()) ==> Keyed()
      ensures old(Keyed()) && old(Stores(account)) ==>
        Balances() == LedgerSpec.Credit(old(Balances()), account.accountId, amount)
    {
      ghost var tracked := Keyed() && Stores(account);
      ghost var m, before := accounts, Balances();
      account.balance := account.balance + amount;
      accounts := accounts[account.accountId := account];
      if tracked {
        assert accounts == m;
        assert Balances() == before[account.accountId := before[account.accountId] + amount];
      }
      return account;
    }
  }
}
