/**
 * A payment wallet with fixed deposits (q42-payment-wallet, Solution.java:
 * class PaymentWallet).
 *
 * A fixed deposit is a promise, not a transfer: its amount stays in the
 * balance and acts as a threshold. Every successful debit (a spend, or the
 * sending side of a transfer) either breaks an active deposit, when it leaves
 * the balance below the threshold, or counts towards five; the fifth counted
 * debit credits 5% interest, rounded half up, and completes the deposit.
 */
module Wallet {
  import opened Common
  import opened Ordering

  datatype Deposit = Deposit(threshold: int, debits: int, active: bool)

  datatype Account = Account(balance: int, deposit: Option<Deposit>)

  datatype Wallet = Wallet(users: map<string, Account>)

  datatype Outcome = Success | NoUser | NoSender | NoReceiver | Insufficient | DepositExists

  function Message(o: Outcome): string {
    match o
    case Success => "success"
    case NoUser => "user does not exist"
    case NoSender => "sender does not exist"
    case NoReceiver => "receiver does not exist"
    case Insufficient => "insufficient balance"
    case DepositExists => "an active fixed deposit already exists"
  }

  /** The number of counted debits that completes a deposit. */
  const DebitsToComplete: int := 5

  /** `registerUser`: a new user with balance 0 and no deposit; an existing user is left alone. */
  function Register(w: Wallet, id: string): (r: Wallet)
    ensures id in w.users ==> r == w
    ensures id !in w.users ==> r.users == w.users[id := Account(0, None)]
  {
    if id in w.users then w else Wallet(w.users[id := Account(0, None)])
  }

  /** `getAccountBalance`: the balance, or -1 for an unknown user. */
  function Balance(w: Wallet, id: string): (b: int)
    ensures id !in w.users ==> b == -1
    ensures id in w.users ==> b == w.users[id].balance
  {
    if id in w.users then w.users[id].balance else -1
  }

  /** `addMoneyToWallet`: a credit, which never touches the deposit. */
  function AddMoney(w: Wallet, id: string, amount: int): (r: (Wallet, Outcome))
    ensures id !in w.users ==> r == (w, NoUser)
    ensures id in w.users ==> r.1 == Success && r.0.users == w.users[id := w.users[id].(balance := w.users[id].balance + amount)]
  {
    if id !in w.users then (w, NoUser)
    else (Wallet(w.users[id := w.users[id].(balance := w.users[id].balance + amount)]), Success)
  }

  // ---------------------------------------------------------------------------
  // The deposit rules
  // ---------------------------------------------------------------------------

  /** 5% of the threshold rounded half up: `Math.floor(threshold * 0.05 + 0.5)` computed exactly. */
  function Interest(threshold: int): (i: int)
    ensures 20 * i <= threshold + 10 < 20 * i + 20
  {
    (threshold + 10) / 20
  }

  function Abs(x: int): int {
    if x < 0 then -x else x
  }

  /** The interest is an integer nearest to 5% of the threshold: no integer is closer to threshold / 20. */
  lemma InterestIsNearest(threshold: int, k: int)
    ensures Abs(20 * Interest(threshold) - threshold) <= Abs(20 * k - threshold)
  {
    var i := Interest(threshold);
    if k > i {
      assert 20 * k - threshold >= 20 * (i + 1) - threshold;
    } else if k < i {
      assert 20 * k - threshold <= 20 * (i - 1) - threshold;
    }
  }

  /**
   * `handleSuccessfulDebit`: with no active deposit nothing happens; a
   * balance below the threshold breaks the deposit; otherwise the debit
   * counts, and the fifth counted debit credits the interest and completes
   * the deposit.
   */
  function AfterDebit(a: Account): (r: Account)
    ensures a.deposit.None? || !a.deposit.value.active ==> r == a
    ensures a.deposit.Some? && a.deposit.value.active && a.balance < a.deposit.value.threshold ==>
              r == a.(deposit := Some(a.deposit.value.(active := false)))
    ensures r.deposit.Some? <==> a.deposit.Some?
    ensures r.balance == a.balance || (a.deposit.Some? && r.balance == a.balance + Interest(a.deposit.value.threshold))
  {
    match a.deposit
    case None => a
    case Some(d) =>
      if !d.active then a
      else if a.balance < d.threshold then a.(deposit := Some(d.(active := false)))
      else
        var counted := d.(debits := d.debits + 1);
        if counted.debits >= DebitsToComplete then
          Account(a.balance + Interest(d.threshold), Some(counted.(active := false)))
        else a.(deposit := Some(counted))
  }

  /** The interest an account's next debit would credit: due only on the fifth counted debit of an active, unbroken deposit. */
  function InterestDue(a: Account): int {
    match a.deposit
    case None => 0
    case Some(d) =>
      if d.active && a.balance >= d.threshold && d.debits + 1 >= DebitsToComplete then Interest(d.threshold) else 0
  }

  /** A debit changes the balance by exactly the interest it makes due, and nothing else. */
  lemma AfterDebitCredits(a: Account)
    ensures AfterDebit(a).balance == a.balance + InterestDue(a)
    ensures InterestDue(a) != 0 ==> !AfterDebit(a).deposit.value.active
  {
  }

  /** An active deposit never counts five debits: at five it has completed. */
  ghost predicate AccountOk(a: Account) {
    a.deposit.Some? && a.deposit.value.active ==> 0 <= a.deposit.value.debits < DebitsToComplete
  }

  lemma AfterDebitOk(a: Account)
    requires AccountOk(a)
    ensures AccountOk(AfterDebit(a))
  {
  }

  /** Debit the amounts one after another, as successive spends would. */
  function DebitAll(a: Account, amounts: seq<int>): Account
    decreases |amounts|
  {
    if amounts == [] then a else DebitAll(AfterDebit(a.(balance := a.balance - amounts[0])), amounts[1..])
  }

  /**
   * Debits that never take the balance below the threshold each count; the
   * one that brings the count to five credits the interest and completes the
   * deposit.
   */
  lemma {:induction false} DebitsCount(balance: int, threshold: int, n: int, amounts: seq<int>)
    requires 0 <= n < DebitsToComplete && n + |amounts| <= DebitsToComplete
    requires forall k :: 0 <= k < |amounts| ==> amounts[k] >= 0
    requires balance - Sum(amounts) >= threshold
    ensures DebitAll(Account(balance, Some(Deposit(threshold, n, true))), amounts) ==
              if n + |amounts| == DebitsToComplete then Account(balance - Sum(amounts) + Interest(threshold), Some(Deposit(threshold, DebitsToComplete, false)))
              else Account(balance - Sum(amounts), Some(Deposit(threshold, n + |amounts|, true)))
    decreases |amounts|
  {
    if amounts != [] {
      var rest := amounts[1..];
      SumNonNegative(rest);
      var b := balance - amounts[0];
      assert b >= threshold;
      var a0 := Account(balance, Some(Deposit(threshold, n, true)));
      assert DebitAll(a0, amounts) == DebitAll(AfterDebit(a0.(balance := b)), rest);
      if n + 1 == DebitsToComplete {
        assert rest == [];
        assert AfterDebit(a0.(balance := b)) == Account(b + Interest(threshold), Some(Deposit(threshold, DebitsToComplete, false)));
      } else {
        assert AfterDebit(a0.(balance := b)) == Account(b, Some(Deposit(threshold, n + 1, true)));
        DebitsCount(b, threshold, n + 1, rest);
      }
    }
  }

  // ---------------------------------------------------------------------------
  // Operations
  // ---------------------------------------------------------------------------

  /** `spendMoney`: an unknown user or too small a balance changes nothing; otherwise a debit. */
  function Spend(w: Wallet, id: string, amount: int): (r: (Wallet, Outcome))
    ensures id !in w.users ==> r == (w, NoUser)
    ensures id in w.users && w.users[id].balance < amount ==> r == (w, Insufficient)
    ensures r.1 == Success <==> id in w.users && w.users[id].balance >= amount
    ensures r.1 == Success ==> r.0.users == w.users[id := AfterDebit(w.users[id].(balance := w.users[id].balance - amount))]
  {
    if id !in w.users then (w, NoUser)
    else
      var a := w.users[id];
      if a.balance < amount then (w, Insufficient)
      else (Wallet(w.users[id := AfterDebit(a.(balance := a.balance - amount))]), Success)
  }

  /**
   * `transferMoney`: checks the sender, then the receiver, then the
   * sender's balance; the sender is debited first (with the deposit rules)
   * and the receiver credited afterwards, which for a transfer to oneself
   * credits the account the debit already updated.
   */
  function Transfer(w: Wallet, from: string, to: string, amount: int): (r: (Wallet, Outcome))
    ensures from !in w.users ==> r == (w, NoSender)
    ensures from in w.users && to !in w.users ==> r == (w, NoReceiver)
    ensures from in w.users && to in w.users && w.users[from].balance < amount ==> r == (w, Insufficient)
    ensures r.1 == Success <==> from in w.users && to in w.users && w.users[from].balance >= amount
    ensures r.0.users.Keys == w.users.Keys
    ensures forall k :: k in w.users && k != from && k != to ==> r.0.users[k] == w.users[k]
    ensures r.1 == Success && from != to ==>
              && r.0.users[from] == AfterDebit(w.users[from].(balance := w.users[from].balance - amount))
              && r.0.users[to] == w.users[to].(balance := w.users[to].balance + amount)
    ensures r.1 == Success && from == to ==>
              var d := AfterDebit(w.users[from].(balance := w.users[from].balance - amount));
              r.0.users[from] == d.(balance := d.balance + amount)
  {
    if from !in w.users then (w, NoSender)
    else if to !in w.users then (w, NoReceiver)
    else
      var a := w.users[from];
      if a.balance < amount then (w, Insufficient)
      else
        var debited := w.users[from := AfterDebit(a.(balance := a.balance - amount))];
        var b := debited[to];
        (Wallet(debited[to := b.(balance := b.balance + amount)]), Success)
  }

  /** `createFixedDeposit`: the user must exist, hold at least the amount, and have no active deposit; the amount is not deducted. */
  function CreateDeposit(w: Wallet, id: string, amount: int): (r: (Wallet, Outcome))
    ensures id !in w.users ==> r == (w, NoUser)
    ensures id in w.users && w.users[id].balance < amount ==> r == (w, Insufficient)
    ensures r.1 == DepositExists <==>
              id in w.users && w.users[id].balance >= amount && w.users[id].deposit.Some? && w.users[id].deposit.value.active
    ensures r.1 == DepositExists ==> r.0 == w
    ensures r.1 == Success ==> r.0.users == w.users[id := Account(w.users[id].balance, Some(Deposit(amount, 0, true)))]
  {
    if id !in w.users then (w, NoUser)
    else
      var a := w.users[id];
      if a.balance < amount then (w, Insufficient)
      else if a.deposit.Some? && a.deposit.value.active then (w, DepositExists)
      else (Wallet(w.users[id := a.(deposit := Some(Deposit(amount, 0, true)))]), Success)
  }

  // ---------------------------------------------------------------------------
  // Totals
  // ---------------------------------------------------------------------------

  /** The balance of one user, 0 for one that does not exist. */
  function BalanceOf(w: Wallet): string -> int {
    k => if k in w.users then w.users[k].balance else 0
  }

  /** The money in the wallet: every balance added up. */
  ghost function Total(w: Wallet): int {
    SetSum(w.users.Keys, BalanceOf(w))
  }

  /** A successful transfer moves money without creating any, except the interest the sender's debit makes due. */
  lemma TransferConserves(w: Wallet, from: string, to: string, amount: int)
    requires Transfer(w, from, to, amount).1 == Success
    ensures Total(Transfer(w, from, to, amount).0) == Total(w) + InterestDue(w.users[from].(balance := w.users[from].balance - amount))
  {
    var a := w.users[from];
    var a1 := a.(balance := a.balance - amount);
    AfterDebitCredits(a1);
    var mid := Wallet(w.users[from := AfterDebit(a1)]);
    var r := Transfer(w, from, to, amount).0;
    var keys := w.users.Keys;
    assert keys + {from} == keys && mid.users.Keys == keys;
    SetSumBump(keys, BalanceOf(w), BalanceOf(mid), from, InterestDue(a1) - amount);
    assert keys + {to} == keys && r.users.Keys == keys;
    SetSumBump(keys, BalanceOf(mid), BalanceOf(r), to, amount);
  }

  /** Spending lowers the total by the amount, less any interest the debit makes due. */
  lemma SpendLowersTotal(w: Wallet, id: string, amount: int)
    requires Spend(w, id, amount).1 == Success
    ensures Total(Spend(w, id, amount).0) == Total(w) - amount + InterestDue(w.users[id].(balance := w.users[id].balance - amount))
  {
    var a1 := w.users[id].(balance := w.users[id].balance - amount);
    AfterDebitCredits(a1);
    var keys := w.users.Keys;
    assert keys + {id} == keys && Spend(w, id, amount).0.users.Keys == keys;
    SetSumBump(keys, BalanceOf(w), BalanceOf(Spend(w, id, amount).0), id, InterestDue(a1) - amount);
  }

  /** Every account keeps its deposit's debit count below five while the deposit is active. */
  ghost predicate Valid(w: Wallet) {
    forall k :: k in w.users ==> AccountOk(w.users[k])
  }

  lemma OperationsValid(w: Wallet, id: string, to: string, amount: int)
    requires Valid(w)
    ensures Valid(Register(w, id)) && Valid(AddMoney(w, id, amount).0) && Valid(Spend(w, id, amount).0)
    ensures Valid(Transfer(w, id, to, amount).0) && Valid(CreateDeposit(w, id, amount).0)
  {
    if id in w.users {
      AfterDebitOk(w.users[id].(balance := w.users[id].balance - amount));
    }
  }

  /** A transfer to oneself keeps the balance, apart from interest, yet still counts as a debit for the deposit. */
  lemma TransferToSelf(w: Wallet, id: string, amount: int)
    requires id in w.users && w.users[id].balance >= amount
    ensures var a1 := w.users[id].(balance := w.users[id].balance - amount);
            var r := Transfer(w, id, id, amount).0;
            r.users[id].balance == w.users[id].balance + InterestDue(a1) && r.users[id].deposit == AfterDebit(a1).deposit
  {
    AfterDebitCredits(w.users[id].(balance := w.users[id].balance - amount));
  }
}
