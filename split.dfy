/** The payout arithmetic both distribution contracts share: a balance
    divided by a head count with truncating division, one share per head,
    the remainder left with the contract. Balances are never negative, so
    truncation and Dafny's floor division agree. */
module Split {

  lemma MultiplyMonotone(a: nat, x: nat, y: nat)
    requires x <= y
    ensures a * x <= a * y
  {
    assert a * y == a * x + a * (y - x);
  }

  lemma MultiplySucc(a: nat, k: nat)
    ensures a * (k + 1) == a * k + a
  {
  }

  /** `share = balance / counter` paid `heads` times stays within the
      balance when there are at most `counter` heads; what is left is at
      least `balance % counter`, and exactly that when every one of the
      `counter` heads is paid. */
  lemma PayoutWithinBalance(balance: nat, counter: nat, heads: nat)
    requires 0 < counter && heads <= counter
    ensures (balance / counter) * heads <= balance
    ensures balance - (balance / counter) * heads >= balance % counter
    ensures heads == counter ==> balance - (balance / counter) * heads == balance % counter
  {
    var share := balance / counter;
    assert balance == share * counter + balance % counter;
    MultiplyMonotone(share, heads, counter);
  }

  /** `share` added up `k` times: the running total of a payout loop. */
  function Repeat(share: nat, k: nat): nat {
    if k == 0 then 0 else Repeat(share, k - 1) + share
  }

  lemma {:induction false} RepeatIsProduct(share: nat, k: nat)
    ensures Repeat(share, k) == share * k
  {
    if k > 0 {
      RepeatIsProduct(share, k - 1);
      assert share * k == share * (k - 1) + share;
    }
  }

  /** The shares of all `n` heads fit in the balance. */
  lemma SharesFit(balance: nat, n: nat)
    requires n > 0
    ensures Repeat(balance / n, n) <= balance
  {
    PayoutWithinBalance(balance, n, n);
    RepeatIsProduct(balance / n, n);
  }
}
