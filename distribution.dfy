/** The equal-split contract: `initialize` writes a set of payees with no
    guard, and `distribute(token)` splits the contract's balance on that
    token equally among them with truncating division, leaving the
    remainder with the contract. The balances of the deployed token
    contracts are the field `tokens`; a call that panics is rolled back by
    the host, so `distribute` leaves them as they were when it returns `Err`. */
module Distribution {
  import opened Host
  import opened Ledger
  import opened Split

  class Distribution {
    /** The contract's own identifier on the token ledgers. */
    const contractId: Identifier

    /** The Payees storage slot. */
    var payees: Option<set<Identifier>>

    /** Balances held by the deployed token contracts. */
    var tokens: map<TokenId, Balances>

    /** A freshly deployed contract: no payees written yet. */
    constructor (id: ContractId, deployed: map<TokenId, Balances>)
      ensures contractId == Contract(id) && payees == None && tokens == deployed
    {
      contractId := Contract(id);
      payees := None;
      tokens := deployed;
    }

    /** `initialize`: overwrites the payee set, however often it is called. */
    method Initialize(newPayees: set<Identifier>)
      modifies this`payees
      ensures payees == Some(newPayees)
    {
      payees := Some(newPayees);
    }

    /** `distribute`: reads the contract's balance on `token`, then pays
        `balance / |payees|` to every payee once; the order of the set's
        iteration is left open. Reading the payees before any `initialize`
        and dividing by an empty set both panic. */
    method Distribute(token: TokenId) returns (r: Result<()>)
      modifies this`tokens
      ensures r.Ok? <==> token in old(tokens) && payees.Some? && |payees.value| > 0
      ensures token !in old(tokens) ==> r == Err(NoSuchToken)
      ensures token in old(tokens) && payees.None? ==> r == Err(MissingValue)
      ensures token in old(tokens) && payees == Some({}) ==> r == Err(DivisionByZero)
      ensures r.Err? ==> tokens == old(tokens)
      ensures r.Ok? ==>
                var b0 := old(tokens)[token];
                var n := |payees.value|;
                var share := BalanceOf(b0, contractId) / n;
                && token in tokens && tokens == old(tokens)[token := tokens[token]]
                && share * n <= BalanceOf(b0, contractId)
                && (forall id ::
                      BalanceOf(tokens[token], id) ==
                      BalanceOf(b0, id) - (if id == contractId then share * n else 0)
                      + (if id in payees.value then share else 0))
                && (contractId !in payees.value ==>
                      BalanceOf(tokens[token], contractId) == BalanceOf(b0, contractId) % n)
    {
      if token !in tokens {
        return Err(NoSuchToken);
      }
      var b0 := tokens[token];
      var balance := BalanceOf(b0, contractId);
      if payees.None? {
        return Err(MissingValue);
      }
      var p := payees.value;
      if |p| == 0 {
        return Err(DivisionByZero);
      }
      var share := balance / |p|;
      SharesFit(balance, |p|);
      assert Repeat(share, |p|) <= balance;
      var b := PayEqually(b0, contractId, p, share);
      RepeatIsProduct(share, |p|);
      PayoutWithinBalance(balance, |p|, |p|);
      tokens := tokens[token := b];
      r := Ok(());
    }
  }

  /** The loop of `distribute`: one transfer of `share` from the contract to
      each payee, in whatever order the set is visited. While the shares of
      all payees fit in the contract's balance no transfer is refused, and
      the outcome is the same for every order. */
  method PayEqually(b0: Balances, self: Identifier, p: set<Identifier>, share: nat) returns (b: Balances)
    requires Repeat(share, |p|) <= BalanceOf(b0, self)
    ensures forall id ::
              BalanceOf(b, id) ==
              BalanceOf(b0, id) - (if id == self then Repeat(share, |p|) else 0)
              + (if id in p then share else 0)
  {
    b := b0;
    var remaining := p;
    ghost var paid: nat := 0;
    while remaining != {}
      invariant remaining <= p
      invariant paid + Repeat(share, |remaining|) == Repeat(share, |p|)
      invariant forall id ::
                  BalanceOf(b, id) ==
                  BalanceOf(b0, id) - (if id == self then paid else 0)
                  + (if id in p && id !in remaining then share else 0)
      decreases remaining
    {
      var x :| x in remaining;
      SplitStep(b0, b, self, share, p, remaining, paid, x);
      b := Xfer(b, self, x, share).value;
      remaining := remaining - {x};
      paid := paid + share;
    }
  }

  /** One payment of `distribute`'s loop: while the shares still owed fit in
      what the contract holds, paying one of them to a payee not yet paid
      moves exactly that share and leaves one fewer owed. */
  lemma SplitStep(b0: Balances, b: Balances, self: Identifier, share: nat,
                  p: set<Identifier>, remaining: set<Identifier>, paid: nat, x: Identifier)
    requires x in remaining && remaining <= p
    requires paid + Repeat(share, |remaining|) <= BalanceOf(b0, self)
    requires forall id ::
               BalanceOf(b, id) ==
               BalanceOf(b0, id) - (if id == self then paid else 0)
               + (if id in p && id !in remaining then share else 0)
    ensures |remaining - {x}| == |remaining| - 1
    ensures paid + share + Repeat(share, |remaining - {x}|) == paid + Repeat(share, |remaining|)
    ensures Xfer(b, self, x, share).Some?
    ensures forall id ::
              BalanceOf(Xfer(b, self, x, share).value, id) ==
              BalanceOf(b0, id) - (if id == self then paid + share else 0)
              + (if id in p && id !in remaining - {x} then share else 0)
  {
  }
}
