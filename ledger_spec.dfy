/** The ledger seen as values: a map from account id to balance (in cents),
    and a transfer as a function of that map. The in-place repository and
    service are proved to follow these functions; the properties of a transfer
    (validation order, conservation, the round trip) are proved here. */
module LedgerSpec {
  import opened Errors
  import opened Domain

  type Ledger = map<string, int>

  /** What a transfer returns (or throws) and the ledger it leaves behind. */
  datatype Outcome = Outcome(result: Result<bool>, ledger: Ledger)

  /** Sum of the balances of the accounts in `keys`. */
  ghost function TotalOver(l: Ledger, keys: set<string>): int
    requires keys <= l.Keys
    decreases keys
  {
    if keys == {} then 0
    else var k :| k in keys; l[k] + TotalOver(l, keys - {k})
  }

  /** Sum of all balances in the ledger. */
  ghost function Total(l: Ledger): int {
    TotalOver(l, l.Keys)
  }

  /** Any key can be taken out of the sum first. */
  lemma {:induction false} TotalOverRemove(l: Ledger, keys: set<string>, k: string)
    requires keys <= l.Keys && k in keys
    ensures TotalOver(l, keys) == l[k] + TotalOver(l, keys - {k})
    decreases keys
  {
    var j :| j in keys && TotalOver(l, keys) == l[j] + TotalOver(l, keys - {j});
    if j != k {
      TotalOverRemove(l, keys - {j}, k);
      TotalOverRemove(l, keys - {k}, j);
      assert keys - {j} - {k} == keys - {k} - {j};
    }
  }

  /** The sum depends only on the balances of the keys summed. */
  lemma {:induction false} TotalOverAgree(l1: Ledger, l2: Ledger, keys: set<string>)
    requires keys <= l1.Keys && keys <= l2.Keys
    requires forall k | k in keys :: l1[k] == l2[k]
    ensures TotalOver(l1, keys) == TotalOver(l2, keys)
    decreases keys
  {
    if keys != {} {
      var k :| k in keys && TotalOver(l1, keys) == l1[k] + TotalOver(l1, keys - {k});
      TotalOverRemove(l2, keys, k);
      TotalOverAgree(l1, l2, keys - {k});
    }
  }

  /** Replacing one balance changes the sum by the difference. */
  lemma TotalUpdate(l: Ledger, k: string, v: int)
    requires k in l
    ensures Total(l[k := v]) == Total(l) - l[k] + v
  {
    var l' := l[k := v];
    assert l'.Keys == l.Keys;
    TotalOverRemove(l, l.Keys, k);
    TotalOverRemove(l', l.Keys, k);
    TotalOverAgree(l, l', l.Keys - {k});
  }

  /** The debit step: refused, with the ledger as it was, when the balance is
      below the amount; otherwise only that account's balance goes down by the amount. */
  function Debit(l: Ledger, id: string, amount: int): (r: Result<Ledger>)
    requires id in l
    ensures r.Ok? <==> l[id] >= amount
    ensures r.Ok? ==> r.value.Keys == l.Keys && r.value[id] == l[id] - amount && r.value[id] >= 0
    ensures r.Ok? ==> forall k | k in l && k != id :: r.value[k] == l[k]
    ensures r.Err? ==> r.error == InsufficientAmount(InsufficientBalanceMessage(id))
  {
    if l[id] >= amount then Ok(l[id := l[id] - amount])
    else Err(InsufficientAmount(InsufficientBalanceMessage(id)))
  }

  /** The credit step: always succeeds; only that account's balance goes up by the amount. */
  function Credit(l: Ledger, id: string, amount: int): (r: Ledger)
    requires id in l
    ensures r.Keys == l.Keys && r[id] == l[id] + amount
    ensures forall k | k in l && k != id :: r[k] == l[k]
  {
    l[id := l[id] + amount]
  }

  /** transferMoney on values: same ids, then a negative amount, then a missing
      source, then a missing destination are refused in that order; then the
      debit (which may be refused) and the credit. */
  function Transfer(l: Ledger, req: TransferRequest): (o: Outcome)
    ensures o.ledger.Keys == l.Keys
    ensures o.result.Ok? ==> o.result.value
    ensures !o.result.Ok? ==> o.ledger == l
  {
    var from, to, amount := req.accountFromId, req.accountToId, req.amount;
    if from == to then Outcome(Err(InvalidAccountId(SameAccountsMessage)), l)
    else if amount < 0 then Outcome(Err(InsufficientAmount(InvalidAmountMessage(amount))), l)
    else if from !in l then Outcome(Err(InvalidAccountId(NoSuchAccountMessage(from))), l)
    else if to !in l then Outcome(Err(InvalidAccountId(NoSuchAccountMessage(to))), l)
    else match Debit(l, from, amount)
      case Err(e) => Outcome(Err(e), l)
      case Ok(debited) => Outcome(Ok(true), Credit(debited, to, amount))
  }

  /** A transfer succeeds exactly when every check passes. */
  lemma TransferSucceedsIff(l: Ledger, req: TransferRequest)
    ensures Transfer(l, req).result.Ok? <==>
      && req.accountFromId != req.accountToId
      && req.amount >= 0
      && req.accountFromId in l && req.accountToId in l
      && l[req.accountFromId] >= req.amount
  {
  }

  /** Equal ids are refused first, whether or not the account exists and whatever the amount. */
  lemma SelfTransferRejected(l: Ledger, id: string, amount: int)
    ensures Transfer(l, TransferRequest(id, id, amount))
         == Outcome(Err(InvalidAccountId(SameAccountsMessage)), l)
  {
  }

  /** A negative amount is refused before either account is looked up; zero is not refused. */
  lemma NegativeAmountRejected(l: Ledger, req: TransferRequest)
    requires req.accountFromId != req.accountToId
    ensures req.amount < 0 ==>
      Transfer(l, req) == Outcome(Err(InsufficientAmount(InvalidAmountMessage(req.amount))), l)
    ensures req.amount == 0 && req.accountFromId in l && req.accountToId in l
            && l[req.accountFromId] >= 0 ==>
      Transfer(l, req) == Outcome(Ok(true), l)
  {
    var from, to := req.accountFromId, req.accountToId;
    if req.amount == 0 && from in l && to in l && l[from] >= 0 {
      assert Transfer(l, req).ledger == l[from := l[from]][to := l[to]];
      assert l[from := l[from]][to := l[to]] == l;
    }
  }

  /** A missing source is reported before a missing destination. */
  lemma MissingAccountRejected(l: Ledger, req: TransferRequest)
    requires req.accountFromId != req.accountToId && req.amount >= 0
    ensures req.accountFromId !in l ==>
      Transfer(l, req) == Outcome(Err(InvalidAccountId(NoSuchAccountMessage(req.accountFromId))), l)
    ensures req.accountFromId in l && req.accountToId !in l ==>
      Transfer(l, req) == Outcome(Err(InvalidAccountId(NoSuchAccountMessage(req.accountToId))), l)
  {
  }

  /** A source balance below the amount is refused by the debit, and the credit is never reached. */
  lemma InsufficientBalanceRejected(l: Ledger, req: TransferRequest)
    requires req.accountFromId != req.accountToId && req.amount >= 0
    requires req.accountFromId in l && req.accountToId in l
    requires l[req.accountFromId] < req.amount
    ensures Transfer(l, req)
         == Outcome(Err(InsufficientAmount(InsufficientBalanceMessage(req.accountFromId))), l)
  {
  }

  /** On success the source loses the amount, the destination gains it, no other balance moves. */
  lemma TransferMovesAmount(l: Ledger, req: TransferRequest)
    requires Transfer(l, req).result.Ok?
    ensures var l' := Transfer(l, req).ledger;
      && l'[req.accountFromId] == l[req.accountFromId] - req.amount
      && l'[req.accountToId] == l[req.accountToId] + req.amount
      && forall k | k in l && k != req.accountFromId && k != req.accountToId :: l'[k] == l[k]
  {
  }

  /** The boundary of the funds check: the whole balance can be moved, one cent more cannot. */
  lemma ExactBalanceBoundary(l: Ledger, from: string, to: string)
    requires from != to && from in l && to in l && l[from] >= 0
    ensures Transfer(l, TransferRequest(from, to, l[from])).result == Ok(true)
    ensures Transfer(l, TransferRequest(from, to, l[from])).ledger[from] == 0
    ensures Transfer(l, TransferRequest(from, to, l[from] + 1)).result
         == Err(InsufficientAmount(InsufficientBalanceMessage(from)))
  {
  }

  /** No transfer creates or destroys money. */
  lemma TransferConservesTotal(l: Ledger, req: TransferRequest)
    ensures Total(Transfer(l, req).ledger) == Total(l)
  {
    var o := Transfer(l, req);
    if o.result.Ok? {
      var from, to, x := req.accountFromId, req.accountToId, req.amount;
      var debited := l[from := l[from] - x];
      TotalUpdate(l, from, l[from] - x);
      TotalUpdate(debited, to, debited[to] + x);
      assert o.ledger == debited[to := debited[to] + x];
    }
  }

  predicate NonNegative(l: Ledger) {
    forall k | k in l :: l[k] >= 0
  }

  /** No transfer leaves a balance negative that was not negative before. */
  lemma TransferPreservesNonNegative(l: Ledger, req: TransferRequest)
    requires NonNegative(l)
    ensures NonNegative(Transfer(l, req).ledger)
  {
  }

  /** Moving an amount from A to B and then the same amount back restores both
      balances (B's balance must not start negative for the way back to be covered). */
  lemma ReverseTransferRestores(l: Ledger, a: string, b: string, x: int)
    requires Transfer(l, TransferRequest(a, b, x)).result.Ok?
    requires b in l && l[b] >= 0
    ensures var l' := Transfer(l, TransferRequest(a, b, x)).ledger;
      Transfer(l', TransferRequest(b, a, x)) == Outcome(Ok(true), l)
  {
    var l' := Transfer(l, TransferRequest(a, b, x)).ledger;
    assert l' == l[a := l[a] - x][b := l[b] + x];
    assert a != b && a in l' && b in l' && x >= 0 && l'[b] >= x;
    var back := Transfer(l', TransferRequest(b, a, x));
    assert back.result == Ok(true);
    assert back.ledger == l'[b := l'[b] - x][a := l'[a] + x];
    assert back.ledger == l;
  }

  /** The ledger after a series of transfer requests, each applied to the
      ledger the previous one left (a refused request leaves it as it was). */
  function Run(l: Ledger, reqs: seq<TransferRequest>): (r: Ledger)
    ensures r.Keys == l.Keys
  {
    if reqs == [] then l else Run(Transfer(l, reqs[0]).ledger, reqs[1..])
  }

  /** Conservation over any series of transfers, successful or not. */
  lemma {:induction false} RunConservesTotal(l: Ledger, reqs: seq<TransferRequest>)
    ensures Total(Run(l, reqs)) == Total(l)
  {
    if reqs != [] {
      TransferConservesTotal(l, reqs[0]);
      RunConservesTotal(Transfer(l, reqs[0]).ledger, reqs[1..]);
    }
  }

  /** No balance ever becomes negative over a series of transfers. */
  lemma {:induction false} RunPreservesNonNegative(l: Ledger, reqs: seq<TransferRequest>)
    requires NonNegative(l)
    ensures NonNegative(Run(l, reqs))
  {
    if reqs != [] {
      TransferPreservesNonNegative(l, reqs[0]);
      RunPreservesNonNegative(Transfer(l, reqs[0]).ledger, reqs[1..]);
    }
  }

  /** 525.45 and 223.30; moving 125.45 gives 400.00 and 348.75, moving it back restores them. */
  lemma TransferExample()
    ensures var l := map["Id-101" := 52545, "Id-102" := 22330];
      var there := Transfer(l, TransferRequest("Id-101", "Id-102", 12545));
      && there == Outcome(Ok(true), map["Id-101" := 40000, "Id-102" := 34875])
      && Transfer(there.ledger, TransferRequest("Id-102", "Id-101", 12545)) == Outcome(Ok(true), l)
  {
    var l := map["Id-101" := 52545, "Id-102" := 22330];
    ReverseTransferRestores(l, "Id-101", "Id-102", 12545);
    assert Transfer(l, TransferRequest("Id-101", "Id-102", 12545)).ledger
        == map["Id-101" := 40000, "Id-102" := 34875];
  }
}
