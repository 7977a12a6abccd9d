/** The external token contract, seen only through its balances and its two
    transfer operations. A token's state is a map from identifier to balance;
    an identifier that is absent holds 0. */
module Ledger {
  import opened Host

  type Balances = map<Identifier, nat>

  function BalanceOf(b: Balances, id: Identifier): nat {
    if id in b then b[id] else 0
  }

  /** `xfer` issued by `from`: moves `amount` from `from` to `to`. The token
      rejects a negative amount and an amount above the sender's balance. */
  function Xfer(b: Balances, from: Identifier, to: Identifier, amount: int): (r: Option<Balances>)
    ensures r.Some? <==> 0 <= amount <= BalanceOf(b, from)
    ensures r.Some? ==> forall id ::
                          BalanceOf(r.value, id) ==
                          BalanceOf(b, id) - (if id == from then amount else 0) + (if id == to then amount else 0)
  {
    if 0 <= amount <= BalanceOf(b, from) then
      var b1 := b[from := BalanceOf(b, from) - amount];
      Some(b1[to := BalanceOf(b1, to) + amount])
    else
      None
  }

  /** `xfer_from` issued by a spender on behalf of `from`. Whether the
      signature and the allowance admit the pull is the opaque `approved`;
      the balance rules are those of `Xfer`. */
  function XferFrom(b: Balances, approved: bool, from: Identifier, to: Identifier, amount: int): (r: Option<Balances>)
    ensures r.Some? <==> approved && 0 <= amount <= BalanceOf(b, from)
    ensures r.Some? ==> r == Xfer(b, from, to, amount)
  {
    if approved then Xfer(b, from, to, amount) else None
  }

  /** One outgoing transfer of a payout loop. */
  datatype Payment = Payment(to: Identifier, amount: int)

  /** The payments issued one after another by `from`; the first refusal
      fails the whole sequence. */
  function XferAll(b: Balances, from: Identifier, ps: seq<Payment>): (r: Option<Balances>)
    ensures r.Some? ==> NonNegative(ps)
    decreases |ps|
  {
    if ps == [] then Some(b)
    else
      match XferAll(b, from, ps[..|ps| - 1])
      case None => None
      case Some(b1) => Xfer(b1, from, ps[|ps| - 1].to, ps[|ps| - 1].amount)
  }

  /** Sum of the amounts of `ps`. */
  function Total(ps: seq<Payment>): int
    decreases |ps|
  {
    if ps == [] then 0 else Total(ps[..|ps| - 1]) + ps[|ps| - 1].amount
  }

  /** Sum of the amounts of `ps` addressed to `id`. */
  function Received(ps: seq<Payment>, id: Identifier): int
    decreases |ps|
  {
    if ps == [] then 0
    else Received(ps[..|ps| - 1], id) + (if ps[|ps| - 1].to == id then ps[|ps| - 1].amount else 0)
  }

  ghost predicate NonNegative(ps: seq<Payment>) {
    forall i :: 0 <= i < |ps| ==> ps[i].amount >= 0
  }

  lemma {:induction false} ReceivedBounds(ps: seq<Payment>, id: Identifier)
    requires NonNegative(ps)
    ensures 0 <= Received(ps, id) <= Total(ps)
    decreases |ps|
  {
    if ps != [] {
      ReceivedBounds(ps[..|ps| - 1], id);
    }
  }

  /** A successful sequence of transfers takes their total from the sender
      and gives each identifier what was addressed to it; nobody else moves. */
  lemma {:induction false} XferAllEffect(b: Balances, from: Identifier, ps: seq<Payment>)
    requires XferAll(b, from, ps).Some?
    ensures forall id ::
              BalanceOf(XferAll(b, from, ps).value, id) ==
              BalanceOf(b, id) - (if id == from then Total(ps) else 0) + Received(ps, id)
    decreases |ps|
  {
    if ps != [] {
      XferAllEffect(b, from, ps[..|ps| - 1]);
    }
  }

  /** The sender never runs short while the amounts it owes stay within its
      starting balance. */
  lemma {:induction false} XferAllSucceeds(b: Balances, from: Identifier, ps: seq<Payment>)
    requires NonNegative(ps)
    requires Total(ps) <= BalanceOf(b, from)
    ensures XferAll(b, from, ps).Some?
    decreases |ps|
  {
    if ps != [] {
      var pre := ps[..|ps| - 1];
      assert NonNegative(pre) by {
        forall i | 0 <= i < |pre| ensures pre[i].amount >= 0 {
          assert pre[i] == ps[i];
        }
      }
      XferAllSucceeds(b, from, pre);
      XferAllEffect(b, from, pre);
      ReceivedBounds(pre, from);
    }
  }

  /** When nothing is paid back to the sender, the sequence fails as soon as
      the amounts exceed its starting balance. */
  lemma XferAllFails(b: Balances, from: Identifier, ps: seq<Payment>)
    requires forall i :: 0 <= i < |ps| ==> ps[i].to != from
    requires Total(ps) > BalanceOf(b, from)
    ensures XferAll(b, from, ps).None?
  {
    var pre := ps[..|ps| - 1];
    if XferAll(b, from, pre).Some? {
      XferAllEffect(b, from, pre);
      assert Received(pre, from) == 0 by {
        ReceivedNone(pre, from);
      }
    }
  }

  lemma {:induction false} ReceivedNone(ps: seq<Payment>, id: Identifier)
    requires forall i :: 0 <= i < |ps| ==> ps[i].to != id
    ensures Received(ps, id) == 0
    decreases |ps|
  {
    if ps != [] {
      ReceivedNone(ps[..|ps| - 1], id);
    }
  }

  /** A prefix of a successful sequence of transfers succeeds; so once a
      prefix fails, the whole sequence fails. */
  lemma {:induction false} XferAllPrefix(b: Balances, from: Identifier, ps: seq<Payment>, k: nat)
    requires k <= |ps| && XferAll(b, from, ps).Some?
    ensures XferAll(b, from, ps[..k]).Some?
    decreases |ps|
  {
    if k == |ps| {
      assert ps[..k] == ps;
    } else {
      var pre := ps[..|ps| - 1];
      assert pre[..k] == ps[..k];
      XferAllPrefix(b, from, pre, k);
    }
  }
}
