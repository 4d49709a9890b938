/** The ledger's two entities: an account, a shared object whose balance is
    changed in place, and a transfer request, a plain value. */
module Domain {

  /** An account: its id never changes, its balance (in cents) does. */
  class Account {
    const accountId: string
    var balance: int

    constructor (accountId: string, balance: int)
      ensures this.accountId == accountId && this.balance == balance
    {
      this.accountId := accountId;
      this.balance := balance;
    }
  }

  /** Move `amount` cents from the account `accountFromId` to `accountToId`. */
  datatype TransferRequest = TransferRequest(accountFromId: string, accountToId: string, amount: int)
}
