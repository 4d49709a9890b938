/** The exceptions the ledger throws, with the exact messages its callers see,
    and the Option/Result wrappers that stand for `null` and for a thrown exception. */
module Errors {

  /** The three exception classes of the ledger, each carrying its message. */
  datatype Error =
    | DuplicateAccountId(message: string)
    | InsufficientAmount(message: string)
    | InvalidAccountId(message: string)

  /** A value, or the exception that was thrown instead. */
  datatype Result<+T> = Ok(value: T) | Err(error: Error)

  /** A value, or `null`. */
  datatype Option<+T> = None | Some(value: T)

  function DuplicateIdMessage(id: string): string {
    "Account id " + id + " already exists!"
  }

  const SameAccountsMessage: string := "From and To accounts are same."

  function NoSuchAccountMessage(id: string): string {
    id + " account does not exists!"
  }

  function InsufficientBalanceMessage(id: string): string {
    id + " account does not have sufficent balance."
  }

  function InvalidAmountMessage(cents: int): string {
    AmountText(cents) + " not a valid amount to transfer."
  }

  /** Each message names its account: two ids give the same message only if
      they are the same id. */
  lemma MessagesNameTheirAccount(a: string, b: string)
    ensures DuplicateIdMessage(a) == DuplicateIdMessage(b) ==> a == b
    ensures NoSuchAccountMessage(a) == NoSuchAccountMessage(b) ==> a == b
    ensures InsufficientBalanceMessage(a) == InsufficientBalanceMessage(b) ==> a == b
  {
    if DuplicateIdMessage(a) == DuplicateIdMessage(b) {
      assert DuplicateIdMessage(a)[11..11 + |a|] == a;
      assert DuplicateIdMessage(b)[11..11 + |b|] == b;
    }
    if NoSuchAccountMessage(a) == NoSuchAccountMessage(b) {
      assert NoSuchAccountMessage(a)[..|a|] == a;
      assert NoSuchAccountMessage(b)[..|b|] == b;
    }
    if InsufficientBalanceMessage(a) == InsufficientBalanceMessage(b) {
      assert InsufficientBalanceMessage(a)[..|a|] == a;
      assert InsufficientBalanceMessage(b)[..|b|] == b;
    }
  }

  predicate IsDigit(c: char) {
    '0' <= c <= '9'
  }

  function DigitChar(d: nat): (c: char)
    requires d < 10
    ensures IsDigit(c) && (c as int) - ('0' as int) == d
  {
    ('0' as int + d) as char
  }

  predicate AllDigits(s: string) {
    forall i :: 0 <= i < |s| ==> IsDigit(s[i])
  }

  /** Decimal digits of a natural number, without leading zeros. */
  function NatText(n: nat): (r: string)
    ensures |r| >= 1
    ensures AllDigits(r)
    ensures |r| > 1 ==> r[0] != '0'
  {
    if n < 10 then [DigitChar(n)] else NatText(n / 10) + [DigitChar(n % 10)]
  }

  /** The value of a string of decimal digits. */
  function DigitsValue(s: string): nat
    requires AllDigits(s)
  {
    if s == [] then 0
    else
      assert IsDigit(s[|s| - 1]);
      DigitsValue(s[..|s| - 1]) * 10 + ((s[|s| - 1] as int) - ('0' as int))
  }

  /** Reading back the digits of `n` gives `n`. */
  lemma {:induction false} NatTextRoundTrip(n: nat)
    ensures DigitsValue(NatText(n)) == n
  {
    if n >= 10 {
      NatTextRoundTrip(n / 10);
      var r := NatText(n);
      assert r[..|r| - 1] == NatText(n / 10);
    }
  }

  /** The two decimals of an amount of `m` cents. */
  function DecimalsText(m: nat): (r: string)
    ensures |r| == 2 && AllDigits(r)
  {
    [DigitChar(m % 100 / 10), DigitChar(m % 10)]
  }

  /** An amount of `m` cents without its sign: whole units, a point, two decimals. */
  function CentsText(m: nat): (r: string)
    ensures |r| >= 4 && r[|r| - 3] == '.' && r[0] != '-'
    ensures IsDigit(r[|r| - 2]) && IsDigit(r[|r| - 1])
  {
    NatText(m / 100) + "." + DecimalsText(m)
  }

  /** How BigDecimal prints an amount of scale 2 held as `cents`: an optional
      minus sign, the whole units, a point and exactly two digits. */
  function AmountText(cents: int): (r: string)
    ensures |r| >= 4 && r[|r| - 3] == '.'
    ensures IsDigit(r[|r| - 2]) && IsDigit(r[|r| - 1])
    ensures (r[0] == '-') <==> cents < 0
  {
    if cents < 0 then "-" + CentsText(-cents) else CentsText(cents)
  }

  /** Reads an unsigned amount: digits, a point and two digits; anything else
      is not an amount. */
  function ParseCents(u: string): (v: Option<nat>)
    ensures v.Some? ==> |u| >= 4 && u[|u| - 3] == '.'
  {
    if |u| >= 4 && u[|u| - 3] == '.' && AllDigits(u[..|u| - 3]) && AllDigits(u[|u| - 2..]) then
      Some(DigitsValue(u[..|u| - 3]) * 100 + DigitsValue(u[|u| - 2..]))
    else
      None
  }

  /** Reads an amount printed as AmountText does: an optional minus sign before
      an unsigned amount. */
  function ParseAmount(r: string): Option<int>
  {
    var negative := |r| > 0 && r[0] == '-';
    match ParseCents(if negative then r[1..] else r)
    case None => None
    case Some(m) => Some(if negative then -(m as int) else m as int)
  }

  lemma TwoDigitsValue(high: nat, low: nat)
    requires high < 10 && low < 10
    ensures DigitsValue([DigitChar(high), DigitChar(low)]) == high * 10 + low
  {
    var s := [DigitChar(high), DigitChar(low)];
    assert s[..1] == [DigitChar(high)] && [DigitChar(high)][..0] == [];
    assert DigitsValue(s[..1]) == high;
  }

  lemma LastDigitOfCents(m: nat)
    ensures m % 100 % 10 == m % 10
  {
    assert m == ((m / 100) * 10) * 10 + m % 100;
  }

  lemma DecimalsValue(m: nat)
    ensures DigitsValue(DecimalsText(m)) == m % 100
  {
    LastDigitOfCents(m);
    TwoDigitsValue(m % 100 / 10, m % 10);
  }

  /** Reading the unsigned text back gives the number of cents. */
  lemma {:induction false} CentsTextRoundTrip(m: nat)
    ensures ParseCents(CentsText(m)) == Some(m)
  {
    var r := CentsText(m);
    assert r == NatText(m / 100) + ("." + DecimalsText(m));
    assert r[..|r| - 3] == NatText(m / 100);
    assert r[|r| - 2..] == DecimalsText(m);
    NatTextRoundTrip(m / 100);
    DecimalsValue(m);
  }

  /** A minus sign in front of an unsigned amount negates it. */
  lemma ParseNegative(u: string, m: nat)
    requires ParseCents(u) == Some(m)
    ensures ParseAmount("-" + u) == Some(-(m as int))
  {
    assert ("-" + u)[1..] == u;
  }

  /** Reading the printed amount back gives the amount. */
  lemma {:induction false} AmountTextRoundTrip(cents: int)
    ensures ParseAmount(AmountText(cents)) == Some(cents)
  {
    if cents < 0 {
      CentsTextRoundTrip(-cents);
      ParseNegative(CentsText(-cents), -cents);
    } else {
      CentsTextRoundTrip(cents);
    }
  }

  /** The negative amount -125.45 is printed as "-125.45". */
  lemma AmountTextExample()
    ensures AmountText(-12545) == "-125.45"
  {
    assert NatText(1) == "1";
    assert NatText(12) == "12";
    assert NatText(125) == "125";
    assert DecimalsText(12545) == "45";
    assert CentsText(12545) == "125.45";
  }

  /** The invalid-amount message names the refused amount: two amounts give the
      same message only if they are equal. */
  lemma {:induction false} InvalidAmountMessageNamesAmount(x: int, y: int)
    ensures InvalidAmountMessage(x) == InvalidAmountMessage(y) ==> x == y
  {
    if InvalidAmountMessage(x) == InvalidAmountMessage(y) {
      var m := InvalidAmountMessage(x);
      assert AmountText(x) == m[..|m| - 32];
      assert AmountText(y) == m[..|m| - 32];
      AmountTextRoundTrip(x);
      AmountTextRoundTrip(y);
    }
  }
}
