/** Clients of the repository and the service that replay, from the contracts
    alone, the cases of AccountRepositoryTest and AccountsServiceTest (amounts in
    cents), and one case showing where the debit stores an account whose id is
    not trimmed. */
module Scenarios {
  import opened Errors
  import opened Domain
  import JavaStrings
  import opened Repository
  import opened Service

  method CreateAndFind() {
    var repo := new AccountsRepositoryInMemory();
    var account := new Account("Id-123", 100000);
    var created := repo.CreateAccount(account);
    assert created == Ok(()) && repo.GetAccount("Id-123") == Some(account);
    var again := repo.CreateAccount(account);
    assert again == Err(DuplicateAccountId(DuplicateIdMessage("Id-123")));
    assert repo.GetAccount("Id-123") == Some(account);
    repo.ClearAccounts();
    assert repo.GetAccount("Id-123") == None;
  }

  /** A store holding one account of 1000.00 under "Id-123". */
  method OneAccount() returns (repo: AccountsRepositoryInMemory, account: Account)
    ensures fresh(repo) && fresh(account)
    ensures account.accountId == "Id-123" && account.balance == 100000
    ensures repo.accounts == map["Id-123" := account]
  {
    repo := new AccountsRepositoryInMemory();
    account := new Account("Id-123", 100000);
    var created := repo.CreateAccount(account);
  }

  method CreditFiveHundred() {
    var repo, account := OneAccount();
    var credited := repo.CreditAccount(account, 50000);
    assert credited.balance == 150000;
  }

  method DebitFiveHundred() {
    var repo, account := OneAccount();
    var debited := repo.DebitAccount(account, 50000);
    assert debited == Ok(account) && account.balance == 50000;
  }

  method DebitWithGreaterAmount() {
    var repo, account := OneAccount();
    var refused := repo.DebitAccount(account, 150000);
    assert refused == Err(InsufficientAmount(InsufficientBalanceMessage("Id-123")));
    assert account.balance == 100000 && repo.accounts == map["Id-123" := account];
    var all := repo.DebitAccount(account, 100000);
    assert all.Ok? && account.balance == 0;
  }

  /** A service over a fresh repository holding 525.45 under "Id-101" and 223.30 under "Id-102". */
  method TwoAccounts() returns (service: AccountsService, one: Account, two: Account)
    ensures fresh(service) && fresh(service.accountsRepository) && fresh(one) && fresh(two)
    ensures one.accountId == "Id-101" && one.balance == 52545
    ensures two.accountId == "Id-102" && two.balance == 22330
    ensures service.accountsRepository.accounts == map["Id-101" := one, "Id-102" := two]
  {
    var repo := new AccountsRepositoryInMemory();
    service := new AccountsService(repo);
    one := new Account("Id-101", 52545);
    two := new Account("Id-102", 22330);
    var c1 := service.CreateAccount(one);
    var c2 := service.CreateAccount(two);
  }

  method TransferThereAndBack() {
    var service, one, two := TwoAccounts();
    var there := service.TransferMoney(TransferRequest("Id-101", "Id-102", 12545));
    assert there == Ok(true) && one.balance == 40000 && two.balance == 34875;
    var back := service.TransferMoney(TransferRequest("Id-102", "Id-101", 12545));
    assert back == Ok(true) && one.balance == 52545 && two.balance == 22330;
  }

  method TransferTooMuch() {
    var service, one, two := TwoAccounts();
    var r := service.TransferMoney(TransferRequest("Id-101", "Id-102", 62545));
    assert r == Err(InsufficientAmount(InsufficientBalanceMessage("Id-101")));
    assert one.balance == 52545 && two.balance == 22330;
  }

  method TransferMissingAccounts() {
    var service, one, two := TwoAccounts();
    var noTarget := service.TransferMoney(TransferRequest("Id-101", "Id-108", 12545));
    assert noTarget == Err(InvalidAccountId(NoSuchAccountMessage("Id-108")));
    var noSource := service.TransferMoney(TransferRequest("Id-108", "Id-101", 12545));
    assert noSource == Err(InvalidAccountId(NoSuchAccountMessage("Id-108")));
    assert one.balance == 52545 && two.balance == 22330;
  }

  method TransferSameOrNegative() {
    var service, one, two := TwoAccounts();
    var same := service.TransferMoney(TransferRequest("Id-107", "Id-107", 12545));
    assert same == Err(InvalidAccountId("From and To accounts are same."));
    var negative := service.TransferMoney(TransferRequest("Id-101", "Id-102", -12545));
    assert negative == Err(InsufficientAmount(InvalidAmountMessage(-12545)));
    assert one.balance == 52545 && two.balance == 22330;
  }

  /** An account created under " Id-7" is, after a debit, also found under "Id-7",
      and an account that was stored under "Id-7" is no longer found. */
  method UntrimmedIdCase() {
    var repo := new AccountsRepositoryInMemory();
    var padded := new Account(" Id-7", 1000);
    var plain := new Account("Id-7", 500);
    var c1 := repo.CreateAccount(padded);
    var c2 := repo.CreateAccount(plain);
    assert c1.Ok? && c2.Ok? && repo.Keyed();
    assert JavaStrings.Trim(" Id-7") == "Id-7";
    var debited := repo.DebitAccount(padded, 100);
    assert debited.Ok?;
    assert repo.GetAccount(" Id-7") == Some(padded) && repo.GetAccount("Id-7") == Some(padded);
    assert !repo.Keyed();
  }
}
