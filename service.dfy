/** AccountsService: the transfer coordinator. A transfer runs a fail-fast
    validation ladder, then debits the source and credits the destination
    through the repository. The two monitors it holds meanwhile are chosen by
    `AccountForLock`; the locking itself is not modelled, its order is. */
module Service {
  import opened Errors
  import opened Domain
  import opened JavaStrings
  import opened Repository
  import LedgerSpec

  class AccountsService {
    const accountsRepository: AccountsRepositoryInMemory

    constructor (accountsRepository: AccountsRepositoryInMemory)
      ensures this.accountsRepository == accountsRepository
    {
      this.accountsRepository := accountsRepository;
    }

    /** Passed on to the repository: a new id is stored, a taken id is refused. */
    method CreateAccount(account: Account) returns (r: Result<()>)
      modifies accountsRepository
      ensures r.Ok? <==> account.accountId !in old(accountsRepository.accounts)
      ensures r.Ok? ==> accountsRepository.accounts == old(accountsRepository.accounts)[account.accountId := account]
      ensures r.Err? ==>
        && r.error == DuplicateAccountId(DuplicateIdMessage(account.accountId))
        && accountsRepository.accounts == old(accountsRepository.accounts)
      ensures old(accountsRepository.Keyed()) ==> accountsRepository.Keyed()
    {
      r := accountsRepository.CreateAccount(account);
    }

    /** Passed on to the repository. */
    function GetAccount(accountId: string): (r: Option<Account>)
      reads accountsRepository
      ensures r.Some? <==> accountId in accountsRepository.accounts
      ensures r.Some? ==> r.value == accountsRepository.accounts[accountId]
    {
      accountsRepository.GetAccount(accountId)
    }

    /** The checks before any account is touched pass: different ids, an amount
        that is not negative, and both ids present. */
    ghost predicate Admitted(request: TransferRequest)
      reads accountsRepository
    {
      && request.accountFromId != request.accountToId
      && request.amount >= 0
      && request.accountFromId in accountsRepository.accounts
      && request.accountToId in accountsRepository.accounts
    }

    /** transferMoney. Every refusal leaves the map and every balance as they
        were. On success the source account (as stored) loses the amount, the
        destination gains it, the source is stored again under its trimmed id,
        and no other account changes. When every account is stored under its
        own id and the source id is trimmed, the effect on the balances is
        exactly LedgerSpec.Transfer. */
    method TransferMoney(request: TransferRequest) returns (r: Result<bool>)
      modifies accountsRepository, accountsRepository.accounts.Values
      ensures request.accountFromId == request.accountToId ==>
        r == Err(InvalidAccountId(SameAccountsMessage))
      ensures request.accountFromId != request.accountToId && request.amount < 0 ==>
        r == Err(InsufficientAmount(InvalidAmountMessage(request.amount)))
      ensures request.accountFromId != request.accountToId && request.amount >= 0
              && request.accountFromId !in old(accountsRepository.accounts) ==>
        r == Err(InvalidAccountId(NoSuchAccountMessage(request.accountFromId)))
      ensures request.accountFromId != request.accountToId && request.amount >= 0
              && request.accountFromId in old(accountsRepository.accounts)
              && request.accountToId !in old(accountsRepository.accounts) ==>
        r == Err(InvalidAccountId(NoSuchAccountMessage(request.accountToId)))
      ensures old(Admitted(request)) ==>
        var source := old(accountsRepository.accounts[request.accountFromId]);
        var target := old(accountsRepository.accounts[request.accountToId]);
        var x := request.amount;
        && (old(source.balance) < x ==>
              r == Err(InsufficientAmount(InsufficientBalanceMessage(source.accountId))))
        && (old(source.balance) >= x ==>
              && r == Ok(true)
              && accountsRepository.accounts
                 == old(accountsRepository.accounts)[Trim(source.accountId) := source][target.accountId := target]
              && (source != target ==>
                    source.balance == old(source.balance) - x && target.balance == old(target.balance) + x)
              && (source == target ==> source.balance == old(source.balance)))
        && forall a | a in old(accountsRepository.accounts.Values) && a != source && a != target ::
             a.balance == old(a.balance)
      ensures r.Err? ==>
        && accountsRepository.accounts == old(accountsRepository.accounts)
        && forall a | a in old(accountsRepository.accounts.Values) :: a.balance == old(a.balance)
      ensures old(accountsRepository.Keyed()) && IsTrimmed(request.accountFromId) ==>
        && accountsRepository.Keyed()
        && LedgerSpec.Transfer(old(accountsRepository.Balances()), request)
           == LedgerSpec.Outcome(r, accountsRepository.Balances())
    {
      var repo := accountsRepository;
      ghost var keyed, before := repo.Keyed(), repo.Balances();
      if request.accountFromId == request.accountToId {
        return Err(InvalidAccountId(SameAccountsMessage));
      }
      if request.amount < 0 {
        return Err(InsufficientAmount(InvalidAmountMessage(request.amount)));
      }
      var fromAccount := repo.GetAccount(request.accountFromId);
      if fromAccount.None? {
        return Err(InvalidAccountId(NoSuchAccountMessage(request.accountFromId)));
      }
      var toAccount := repo.GetAccount(request.accountToId);
      if toAccount.None? {
        return Err(InvalidAccountId(NoSuchAccountMessage(request.accountToId)));
      }
      // transferMoney holds the monitors of AccountForLock(from, to, true) and
      // then of AccountForLock(from, to, false) around this call.
      r := DebitThenCredit(fromAccount.value, toAccount.value, request.amount);
      assert keyed && IsTrimmed(request.accountFromId) ==>
        request == TransferRequest(fromAccount.value.accountId, toAccount.value.accountId, request.amount);
    }

    /** The body of the two synchronized blocks: debit the source; when that is
        refused its exception propagates and the credit is never reached;
        otherwise credit the destination and return true. */
    method DebitThenCredit(source: Account, target: Account, amount: int) returns (r: Result<bool>)
      modifies accountsRepository, source, target
      ensures old(source.balance) < amount ==>
        && r == Err(InsufficientAmount(InsufficientBalanceMessage(source.accountId)))
        && accountsRepository.accounts == old(accountsRepository.accounts)
        && source.balance == old(source.balance) && target.balance == old(target.balance)
      ensures old(source.balance) >= amount ==>
        && r == Ok(true)
        && accountsRepository.accounts
           == old(accountsRepository.accounts)[Trim(source.accountId) := source][target.accountId := target]
        && (source != target ==>
              source.balance == old(source.balance) - amount && target.balance == old(target.balance) + amount)
        && (source == target ==> source.balance == old(source.balance))
      ensures old(accountsRepository.Keyed()) && IsTrimmed(source.accountId)
              && old(accountsRepository.Stores(source)) && old(accountsRepository.Stores(target))
              && source != target && amount >= 0 ==>
        && accountsRepository.Keyed()
        && LedgerSpec.Transfer(old(accountsRepository.Balances()),
                               TransferRequest(source.accountId, target.accountId, amount))
           == LedgerSpec.Outcome(r, accountsRepository.Balances())
    {
      var repo := accountsRepository;
      ghost var tracked := repo.Keyed() && IsTrimmed(source.accountId) && repo.Stores(source)
                           && repo.Stores(target) && source != target && amount >= 0;
      ghost var before := repo.Balances();
      ghost var request := TransferRequest(source.accountId, target.accountId, amount);
      var debited := repo.DebitAccount(source, amount);
      if debited.Err? {
        r := Err(debited.error);
        if tracked {
          assert repo.Balances() == before;
          assert LedgerSpec.Transfer(before, request) == LedgerSpec.Outcome(r, before);
        }
        return;
      }
      ghost var middle, stored, debitedBalance := repo.Balances(), repo.accounts, source.balance;
      assert stored == old(repo.accounts)[Trim(source.accountId) := source];
      assert debitedBalance == old(source.balance) - amount;
      if tracked {
        assert repo.Stores(target);
        assert LedgerSpec.Debit(before, source.accountId, amount) == Ok(middle);
      }
      var credited := repo.CreditAccount(target, amount);
      assert repo.accounts == stored[target.accountId := target];
      r := Ok(true);
      if tracked {
        assert LedgerSpec.Transfer(before, request)
            == LedgerSpec.Outcome(r, LedgerSpec.Credit(middle, target.accountId, amount));
      }
    }

    /** getAccountForLock: of the two accounts, the one whose id compares lower
        (wantSmall) or higher (otherwise); with equal ids, the second. */
    static function AccountForLock(one: Account, two: Account, wantSmall: bool): (r: Account)
      ensures r == one || r == two
      ensures wantSmall ==>
        CompareTo(r.accountId, one.accountId) <= 0 && CompareTo(r.accountId, two.accountId) <= 0
      ensures !wantSmall ==>
        CompareTo(r.accountId, one.accountId) >= 0 && CompareTo(r.accountId, two.accountId) >= 0
      ensures one.accountId == two.accountId ==> r == two
    {
      CompareToAntisymmetric(one.accountId, two.accountId);
      CompareToZeroIff(one.accountId, one.accountId);
      CompareToZeroIff(two.accountId, two.accountId);
      if wantSmall then
        if CompareTo(one.accountId, two.accountId) < 0 then one else two
      else
        if CompareTo(one.accountId, two.accountId) > 0 then one else two
    }
  }

  /** A transfer from A to B and one from B to A take the same monitor first
      and the same monitor second. */
  lemma LockOrderIgnoresDirection(one: Account, two: Account)
    requires one.accountId != two.accountId
    ensures AccountsService.AccountForLock(one, two, true) == AccountsService.AccountForLock(two, one, true)
    ensures AccountsService.AccountForLock(one, two, false) == AccountsService.AccountForLock(two, one, false)
  {
    LessTotal(one.accountId, two.accountId);
    CompareToAntisymmetric(one.accountId, two.accountId);
  }

  /** For two accounts with different ids the two monitors are the two accounts,
      distinct, and the first has the lower id. */
  lemma LocksAreOrderedPair(one: Account, two: Account)
    requires one.accountId != two.accountId
    ensures var first := AccountsService.AccountForLock(one, two, true);
            var second := AccountsService.AccountForLock(one, two, false);
            && {first, second} == {one, two}
            && first != second
            && Less(first.accountId, second.accountId)
  {
    LessTotal(one.accountId, two.accountId);
    CompareToAntisymmetric(one.accountId, two.accountId);
  }

  /** Why the order prevents deadlock: every transfer waits only for a monitor
      whose id is higher than one it holds, so along any chain of waits -- the
      holder of chain[i] waiting for chain[i + 1] -- the ids strictly increase,
      and the chain can never come back to where it started. */
  lemma {:induction false} OrderedWaitsNeverCycle(chain: seq<string>)
    requires |chain| >= 2
    requires forall i :: 0 <= i < |chain| - 1 ==> Less(chain[i], chain[i + 1])
    ensures Less(chain[0], chain[|chain| - 1])
    ensures chain[0] != chain[|chain| - 1]
  {
    if |chain| > 2 {
      OrderedWaitsNeverCycle(chain[1..]);
      LessTransitive(chain[0], chain[1], chain[|chain| - 1]);
    }
    CompareToZeroIff(chain[0], chain[|chain| - 1]);
  }
}
