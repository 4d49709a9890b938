# In-memory ledger: account store and transfer coordinator

A Dafny model of the sequential core of an in-memory banking ledger:

- The **account store** (`AccountsRepositoryInMemory`) is a map from account id to a shared, mutable `Account` object. It supports create (refused with `DuplicateAccountIdException` when the id is taken), lookup, clear, debit and credit. A debit is refused with `InsufficientAmountException` when the balance is below the amount.
- The **transfer coordinator** (`AccountsService.transferMoney`) runs a fail-fast validation ladder: same ids, then a negative amount, then a missing source, then a missing destination. It then debits the source and credits the destination, and returns `true`.
- Deadlock is avoided by always taking the two account monitors in lexicographic id order (`getAccountForLock`).

Balances and amounts are exact integers (cents). A thrown exception is the `Err` case of `Errors.Result`, carrying an `Errors.Error` with the exact message text. A `null` lookup is `Errors.None`. The request `BalanceTransferRequest` is the datatype `Domain.TransferRequest` (src/main/java/com/db/awmd/challenge/domain/BalanceTransferRequest.java:16-35).

Modules:

- `JavaStrings` (java_strings.dfy): `String.compareTo` as `CompareTo`, its order `Less`, and `String.trim` as `Trim`. Dafny's own `<` on strings means "proper prefix", so the order is written out.
- `Errors` (errors.dfy): the three exception kinds, their messages, and the two-decimal rendering of an amount used in one message, with a reader for it.
- `Domain` (domain.dfy): the `Account` class (immutable id, mutable balance) and `TransferRequest`.
- `LedgerSpec` (ledger_spec.dfy): the ledger as a value, `map<string, int>`, and a transfer as a function of it. Validation order, conservation of the total, non-negativity and the round trip are proved here.
- `Repository` (repository.dfy): the store as a class with a `map<string, Account>` field that its methods reassign, changing account balances in place.
  - `Keyed()` says every account is stored under its own id. `Balances()` is the value view of the store.
  - Each mutating method states its whole new state. Debit and credit also state that, in a keyed store and for the account object stored under its own id (and, for a debit, a trimmed id), they act on `Balances()` exactly as `LedgerSpec.Debit` / `LedgerSpec.Credit`.
- `Service` (service.dfy): the coordinator as a class. `TransferMoney` states every outcome on the objects it touches. When the store is `Keyed()` and the source id is trimmed, its effect on `Balances()` is exactly `LedgerSpec.Transfer`. `AccountForLock` and the lemmas after it state the lock order.
- `Scenarios` (scenarios.dfy): client methods that replay the repository and service test cases from the contracts alone:
  - create/duplicate/clear;
  - credit of 500 to 1000 gives 1500; debit of 500 from 1000 gives 500; debit of 1500 from 1000 refused;
  - 525.45/223.30 → 400.00/348.75 → back;
  - each refusal of a transfer;
  - the re-keying of an untrimmed id by a debit.

How the code behaves where that is less than obvious (modelled as written):

- `debitAccount` stores the account under `accountId.trim()`, but `createAccount` and `creditAccount` use the id as given. So debiting an account whose id has leading or trailing blanks also files it under the trimmed id. If another account was stored under the trimmed id, it is no longer found. `DebitAccount` states this exactly: `Keyed()` survives a successful debit iff the id is already trimmed. `Scenarios.UntrimmedIdCase` shows the case " Id-7".
- Both `compute` lambdas ignore the stored value and return the passed account. So debit and credit store the passed object under the key even when the key was absent.
- The insufficient-balance message uses the account object's id, not the request's id.
- Only negative amounts are refused as invalid, and with `InsufficientAmountException` (src/main/java/com/db/awmd/challenge/service/AccountsService.java:48-50). A zero amount passes that check (`LedgerSpec.NegativeAmountRejected`).
- The two ids of a request are compared as given, without trimming (line 46).
- There is no compensating credit-back: once the debit has happened nothing undoes it, and `creditAccount` cannot fail.
- The missing-account message reads "does not exists!" and the insufficient-balance message "sufficent", exactly as in the code.

## Model

| member | source | states |
|---|---|---|
| JavaStrings.CompareTo | src/main/java/com/db/awmd/challenge/service/AccountsService.java:82-88 | `String.compareTo`: the difference of the first differing characters, or of the lengths when one id is a prefix of the other (its properties are the four lemmas below) |
| JavaStrings.CompareToAntisymmetric | src/main/java/com/db/awmd/challenge/service/AccountsService.java:82-88 | swapping the two ids negates `compareTo`, so the `< 0` and `> 0` tests of the lock choice are mirror images |
| JavaStrings.CompareToZeroIff | src/main/java/com/db/awmd/challenge/service/AccountsService.java:82-88 | `compareTo` is 0 exactly when the two ids are equal |
| JavaStrings.LessTransitive | src/main/java/com/db/awmd/challenge/service/AccountsService.java:82-88 | the order `compareTo < 0` is transitive |
| JavaStrings.LessTotal | src/main/java/com/db/awmd/challenge/service/AccountsService.java:82-88 | of two different ids exactly one is below the other |
| JavaStrings.Trim | src/main/java/com/db/awmd/challenge/repository/AccountsRepositoryInMemory.java:45 | the trimmed key has no blank at either end, is no longer than the id, and equals the id when the id has no blank at either end |
| JavaStrings.TrimStartIsSuffix | src/main/java/com/db/awmd/challenge/repository/AccountsRepositoryInMemory.java:45 | removing the leading blanks leaves a suffix of the id, and only blanks are removed |
| JavaStrings.TrimEndIsPrefix | src/main/java/com/db/awmd/challenge/repository/AccountsRepositoryInMemory.java:45 | removing the trailing blanks leaves a prefix, and only blanks are removed |
| JavaStrings.TrimIsInfix | src/main/java/com/db/awmd/challenge/repository/AccountsRepositoryInMemory.java:45 | the trimmed key is a contiguous piece of the id, and everything before and after that piece is blanks; with `IsTrimmed(Trim(s))` this fixes the result |
| Errors.DuplicateIdMessage | src/main/java/com/db/awmd/challenge/repository/AccountsRepositoryInMemory.java:29 | "Account id <id> already exists!" |
| Errors.SameAccountsMessage | src/main/java/com/db/awmd/challenge/service/AccountsService.java:47 | "From and To accounts are same." |
| Errors.NoSuchAccountMessage | src/main/java/com/db/awmd/challenge/service/AccountsService.java:53-57 | "<id> account does not exists!" |
| Errors.InsufficientBalanceMessage | src/main/java/com/db/awmd/challenge/repository/AccountsRepositoryInMemory.java:49 | "<id> account does not have sufficent balance." |
| Errors.InvalidAmountMessage | src/main/java/com/db/awmd/challenge/service/AccountsService.java:49-50 | "<amount> not a valid amount to transfer." with the amount printed by `AmountText` |
| Errors.MessagesNameTheirAccount | src/main/java/com/db/awmd/challenge/repository/AccountsRepositoryInMemory.java:29 | the duplicate-id, missing-account and insufficient-balance messages are each different for different ids, so each message names exactly one account |
| Errors.InvalidAmountMessageNamesAmount | src/main/java/com/db/awmd/challenge/service/AccountsService.java:49-50 | different amounts give different invalid-amount messages |
| Errors.NatTextRoundTrip | src/main/java/com/db/awmd/challenge/service/AccountsService.java:49-50 | the decimal digits printed for a whole number read back as that number |
| Errors.AmountText | src/main/java/com/db/awmd/challenge/service/AccountsService.java:49-50 | an amount prints with a leading minus exactly when negative, a point and two decimal digits |
| Errors.CentsTextRoundTrip | src/main/java/com/db/awmd/challenge/service/AccountsService.java:49-50 | an unsigned amount printed as units, point and two decimals reads back as the same number of cents |
| Errors.AmountTextRoundTrip | src/main/java/com/db/awmd/challenge/service/AccountsService.java:49-50 | reading back the printed amount, sign included, gives the amount: the message names exactly the amount that was refused |
| Errors.AmountTextExample | src/test/java/com/db/awmd/challenge/AccountsServiceTest.java:192-203 | -125.45 is printed as "-125.45" |
| Domain.TransferRequest | src/main/java/com/db/awmd/challenge/domain/BalanceTransferRequest.java:16-35 | the request: source id, destination id and amount in cents, set as given |
| Domain.Account.constructor | src/test/java/com/db/awmd/challenge/AccountsServiceTest.java:74-75 | a new account has the given id and balance |
| LedgerSpec.Debit | src/main/java/com/db/awmd/challenge/repository/AccountsRepositoryInMemory.java:44-53 | succeeds iff balance >= amount; then only that balance drops by the amount and stays >= 0; otherwise the insufficient-balance error for that id |
| LedgerSpec.Credit | src/main/java/com/db/awmd/challenge/repository/AccountsRepositoryInMemory.java:55-61 | always succeeds; only that balance rises by the amount |
| LedgerSpec.Transfer | src/main/java/com/db/awmd/challenge/service/AccountsService.java:43-77 | a transfer never adds or drops an account, its success value is `true`, and every refusal leaves the ledger as it was |
| LedgerSpec.TransferSucceedsIff | src/main/java/com/db/awmd/challenge/service/AccountsService.java:46-73 | success exactly when ids differ, amount >= 0, both ids exist and the source balance covers the amount |
| LedgerSpec.SelfTransferRejected | src/main/java/com/db/awmd/challenge/service/AccountsService.java:46-47 | equal ids give "From and To accounts are same." with the ledger unchanged, for any amount and whether or not the account exists |
| LedgerSpec.NegativeAmountRejected | src/main/java/com/db/awmd/challenge/service/AccountsService.java:48-50 | a negative amount is refused with its message before any lookup; a zero amount between existing accounts whose source balance is not negative succeeds and changes nothing (a negative source balance fails the `balance >= amount` test even for zero) |
| LedgerSpec.MissingAccountRejected | src/main/java/com/db/awmd/challenge/service/AccountsService.java:51-57 | a missing source is reported (with its id) before a missing destination (with its id), ledger unchanged |
| LedgerSpec.InsufficientBalanceRejected | src/main/java/com/db/awmd/challenge/service/AccountsService.java:62-68 | a source balance below the amount gives the debit's error and no balance changes |
| LedgerSpec.TransferMovesAmount | src/main/java/com/db/awmd/challenge/service/AccountsService.java:62-73 | on success source = old − amount, destination = old + amount, every other balance unchanged |
| LedgerSpec.ExactBalanceBoundary | src/main/java/com/db/awmd/challenge/repository/AccountsRepositoryInMemory.java:46-49 | moving the whole balance succeeds and leaves 0; one cent more is refused |
| LedgerSpec.TransferConservesTotal | src/main/java/com/db/awmd/challenge/service/AccountsService.java:62-73 | the sum of all balances is the same after any transfer, successful or refused |
| LedgerSpec.TransferPreservesNonNegative | src/main/java/com/db/awmd/challenge/service/AccountsService.java:48-70 | if no balance was negative, none is after a transfer |
| LedgerSpec.ReverseTransferRestores | src/test/java/com/db/awmd/challenge/AccountsServiceTest.java:208-236 | after a successful A→B transfer of x, when B's balance was not negative, B→A of x succeeds and restores the original ledger (a negative B fails the `balance >= amount` test on the way back) |
| LedgerSpec.Run | src/main/java/com/db/awmd/challenge/service/AccountsService.java:43-77 | a series of transfers never adds or drops an account |
| LedgerSpec.RunConservesTotal | src/main/java/com/db/awmd/challenge/service/AccountsService.java:43-77 | the sum of all balances is conserved over any series of transfers |
| LedgerSpec.RunPreservesNonNegative | src/main/java/com/db/awmd/challenge/service/AccountsService.java:43-77 | no balance becomes negative over any series of transfers |
| LedgerSpec.TransferExample | src/test/java/com/db/awmd/challenge/AccountsServiceTest.java:71-86 | 525.45/223.30 with 125.45 moved gives 400.00/348.75, and moving it back restores 525.45/223.30 |
| Repository.AccountsRepositoryInMemory.constructor | src/main/java/com/db/awmd/challenge/repository/AccountsRepositoryInMemory.java:23 | a new store is empty |
| Repository.AccountsRepositoryInMemory.CreateAccount | src/main/java/com/db/awmd/challenge/repository/AccountsRepositoryInMemory.java:26-31 | a free id is stored with that very object; a taken id gives "Account id <id> already exists!" and the map, original record included, is unchanged; keeps `Keyed()` |
| Repository.AccountsRepositoryInMemory.GetAccount | src/main/java/com/db/awmd/challenge/repository/AccountsRepositoryInMemory.java:34-36 | the stored object when the id is present, null otherwise; in a keyed store its id is the one asked for |
| Repository.AccountsRepositoryInMemory.ClearAccounts | src/main/java/com/db/awmd/challenge/repository/AccountsRepositoryInMemory.java:39-41 | afterwards every lookup gives null |
| Repository.AccountsRepositoryInMemory.DebitAccount | src/main/java/com/db/awmd/challenge/repository/AccountsRepositoryInMemory.java:44-53 | balance >= amount: balance drops by the amount, the same account is returned and stored under the trimmed id; otherwise the insufficient-balance error and nothing changes; no other account changes (its frame is the store and this account); `Keyed()` survives iff refused or id trimmed; on a keyed store it acts as `LedgerSpec.Debit` |
| Repository.AccountsRepositoryInMemory.CreditAccount | src/main/java/com/db/awmd/challenge/repository/AccountsRepositoryInMemory.java:55-61 | balance rises by the amount, the same account is returned and stored under its id as given; no other account changes (its frame is the store and this account); keeps `Keyed()`; on a keyed store, for the account object stored under its id, it acts as `LedgerSpec.Credit` |
| Service.AccountsService.constructor | src/main/java/com/db/awmd/challenge/service/AccountsService.java:29-33 | the service works on the repository it is given |
| Service.AccountsService.CreateAccount | src/main/java/com/db/awmd/challenge/service/AccountsService.java:35-37 | creation is passed on: succeeds iff the id is free, otherwise the duplicate error with the map unchanged |
| Service.AccountsService.GetAccount | src/main/java/com/db/awmd/challenge/service/AccountsService.java:39-41 | lookup is passed on to the repository |
| Service.AccountsService.TransferMoney | src/main/java/com/db/awmd/challenge/service/AccountsService.java:43-77 | the ladder's errors in order with their messages; insufficient balance propagates; on success `true`, source −amount, destination +amount, the map re-stores both, others unchanged; every error leaves map and balances unchanged; on a keyed store with a trimmed source id, equals `LedgerSpec.Transfer` and keeps `Keyed()` |
| Service.AccountsService.DebitThenCredit | src/main/java/com/db/awmd/challenge/service/AccountsService.java:61-73 | the guarded body: a refused debit returns its error and changes neither account nor the map; otherwise `true`, source −amount and destination +amount (no change when they are one object), both re-stored; only the two accounts change; for distinct accounts stored under their own trimmed ids in a keyed store and an amount that is not negative, it equals `LedgerSpec.Transfer` |
| Service.AccountsService.AccountForLock | src/main/java/com/db/awmd/challenge/service/AccountsService.java:80-94 | returns one of the two accounts: the one with the lowest id (wantSmall) or the highest (otherwise); with equal ids, the second |
| Service.LockOrderIgnoresDirection | src/main/java/com/db/awmd/challenge/service/AccountsService.java:80-94 | for distinct ids, A→B and B→A choose the same first and the same second monitor |
| Service.LocksAreOrderedPair | src/main/java/com/db/awmd/challenge/service/AccountsService.java:80-94 | for distinct ids the two monitors are the two accounts, they differ, and the first has the lower id |
| Service.OrderedWaitsNeverCycle | src/main/java/com/db/awmd/challenge/service/AccountsService.java:59-60 | along any chain of waits in increasing id order the first id is below the last, so no chain closes into a cycle |
| Scenarios.CreateAndFind | src/test/java/com/db/awmd/challenge/AccountRepositoryTest.java:33-55 | a created account is found under its id; creating it again gives the duplicate message and keeps it; after clearing it is gone |
| Scenarios.OneAccount | src/test/java/com/db/awmd/challenge/AccountRepositoryTest.java:59-61 | a fresh store holding 1000.00 under "Id-123" |
| Scenarios.CreditFiveHundred | src/test/java/com/db/awmd/challenge/AccountRepositoryTest.java:57-64 | crediting 500 to 1000 returns the account with 1500 |
| Scenarios.DebitFiveHundred | src/test/java/com/db/awmd/challenge/AccountRepositoryTest.java:66-73 | debiting 500 from 1000 returns the account with 500 |
| Scenarios.DebitWithGreaterAmount | src/test/java/com/db/awmd/challenge/AccountRepositoryTest.java:75-86 | debiting 1500 from 1000 is refused with the insufficient-balance message and changes nothing; as an added boundary case beyond the test, debiting exactly 1000 then succeeds and leaves 0 |
| Scenarios.TwoAccounts | src/test/java/com/db/awmd/challenge/AccountsServiceTest.java:72-77 | a fresh store holding 525.45 under "Id-101" and 223.30 under "Id-102" |
| Scenarios.TransferThereAndBack | src/test/java/com/db/awmd/challenge/AccountsServiceTest.java:208-236 | 125.45 from "Id-101" to "Id-102" gives `true` and 400.00/348.75; 125.45 back gives `true` and 525.45/223.30 (the two threads run one after the other) |
| Scenarios.TransferTooMuch | src/test/java/com/db/awmd/challenge/AccountsServiceTest.java:118-135 | transferring 625.45 out of 525.45 gives the source's insufficient-balance message and moves nothing |
| Scenarios.TransferMissingAccounts | src/test/java/com/db/awmd/challenge/AccountsServiceTest.java:137-170 | a missing destination, and then a missing source, is refused with "<id> account does not exists!" naming that id, and no balance moves |
| Scenarios.TransferSameOrNegative | src/test/java/com/db/awmd/challenge/AccountsServiceTest.java:172-205 | equal ids give "From and To accounts are same."; -125.45 gives the invalid-amount message for -125.45; no balance moves |
| Scenarios.UntrimmedIdCase | src/main/java/com/db/awmd/challenge/repository/AccountsRepositoryInMemory.java:44-53 | an account created under " Id-7" and debited is found under both " Id-7" and "Id-7", the account that was under "Id-7" is no longer found, and the store is no longer keyed |

## Left out

- The `synchronized` monitors and any interleaving of concurrent transfers: each call is one sequential step. The thread-pool test is replayed sequentially (`Scenarios.TransferThereAndBack`). Only the order in which monitors are chosen is modelled (`AccountForLock` and the lemmas after it).
- Atomicity of `ConcurrentHashMap.putIfAbsent` and `compute`: each is one step of the model.
- Notifications (`notifyUser`, `CompletableFuture.runAsync`, the notification service), logging, and the Spring wiring: fire-and-forget I/O and framework code, with no effect on balances or results.
- `doubleValue()` comparisons: modelled as exact integer comparison of cents.
- BigDecimal scale: every amount is in cents. The negative-amount message always shows two decimals, where BigDecimal would print the scale it was given.
- Bean-validation annotations on the request (`@NonNull`, `@NotEmpty`, `@Min(1)`): they are enforced by a framework layer that is not part of this model.
- The HTTP controller and its status codes are not part of this model.
- The `AccountsRepository` interface: it has no behaviour. Its `transferMoney` has no implementation in the in-memory store.
- Account.java is not part of this model; its shape (an id that never changes, a balance that does) is taken from its uses. The one-argument constructor `new Account(id)` is not modelled, because the balance it starts with is not known without that file. Account equality in the tests is object identity here.
- `JavaStrings.CompareTo` compares Dafny characters (Unicode scalar values). Java compares UTF-16 code units, and the two orders differ only for characters outside the Basic Multilingual Plane.
- Service.AccountsService.TransferMoney: the equation with `LedgerSpec.Transfer` is stated only for a keyed store and a trimmed source id. Otherwise the debit re-keys the source account, and the object-level clauses describe that case instead.
- Repository.AccountsRepositoryInMemory.DebitAccount: the equation with `LedgerSpec.Debit` is stated only for a keyed store, an account stored under its id, and a trimmed id. The object-level clauses cover every other case.
- Repository.AccountsRepositoryInMemory.CreditAccount: the equation with `LedgerSpec.Credit` is stated only for a keyed store and the account object stored under its id. Crediting a different object with the same id replaces the stored one, and the object-level clauses describe that case.
- Service.AccountsService.DebitThenCredit: the equation with `LedgerSpec.Transfer` is stated only for distinct accounts stored under their own trimmed ids in a keyed store and an amount that is not negative. `TransferMoney` refuses negative amounts before this step, and the object-level clauses cover every other case.
