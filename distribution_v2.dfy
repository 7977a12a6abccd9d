/** The escrow contract with attendance: depositors pay in on the token named
    at setup, the administrator marks who attended, then either splits the
    contract's balance among the attended records or refunds every deposit.

    The four storage slots are fields of `Distribution`; the balances of the
    deployed token contracts are the field `tokens`. A call that panics is
    rolled back by the host, so every method below leaves every field as it
    was when it returns `Err`. */
module DistributionV2 {
  import opened Host
  import opened Ledger
  import opened Registry
  import opened Split
  import Admin

  /** The Attended slot's value, as `increment_attended` reads it: 0 while
      the slot is absent. */
  function CounterValue(slot: Option<nat>): (r: nat)
    ensures GetAttended(slot).Ok? ==> r == GetAttended(slot).value
    ensures GetAttended(slot).Err? ==> r == 0
  {
    slot.GetOr(0)
  }

  /** `get_attended`: the counter, or "no attendees" while the slot is absent. */
  function GetAttended(slot: Option<nat>): (r: Result<nat>)
    ensures r.Ok? <==> slot.Some?
    ensures r.Ok? ==> Some(r.value) == slot
    ensures r.Err? ==> r.error == NoAttendees
  {
    match slot
    case Some(c) => Ok(c)
    case None => Err(NoAttendees)
  }

  /** `get_token`: the token id, or "not initialized" while the slot is absent. */
  function GetToken(slot: Option<TokenId>): (r: Result<TokenId>)
    ensures r.Ok? <==> slot.Some?
    ensures r.Ok? ==> Some(r.value) == slot
    ensures r.Err? ==> r.error == NotInitialized
  {
    match slot
    case Some(t) => Ok(t)
    case None => Err(NotInitialized)
  }

  /** The registry-side invariant of the contract: `order` lists the
      registry's keys once each, the Depositors slot is written once there is
      a record, deposits are never negative, `pulled` is their sum, and the
      counter, a u32, never falls below the number of attended records. */
  ghost predicate Consistent(order: seq<Identifier>, m: Depositors, stored: bool, counter: Option<nat>, pulled: int) {
    && Distinct(order)
    && (forall id :: id in m <==> id in order)
    && (stored <==> order != [])
    && (forall id :: id in m ==> m[id].deposit >= 0)
    && (counter.Some? ==> stored)
    && CounterValue(counter) <= U32_MAX
    && CountAttended(order, m) <= CounterValue(counter)
    && SumDeposits(order, m) == pulled
  }

  /** A successful `deposit` keeps the invariant: the new key is appended,
      its record is unattended and its deposit joins the sum. */
  lemma InsertConsistent(order: seq<Identifier>, m: Depositors, stored: bool, counter: Option<nat>, pulled: int,
                         user: Identifier, amount: I128)
    requires Consistent(order, m, stored, counter, pulled)
    requires user !in m && amount >= 0
    ensures Consistent(order + [user], Insert(m, user, amount), true, counter, pulled + amount)
  {
    assert user !in order;
    InsertCount(order, m, user, amount);
    InsertSum(order, m, user, amount);
    assert Distinct(order + [user]);
  }

  /** A successful `attended` keeps the invariant: one flag set, the counter
      one higher, the attended records at most one more. */
  lemma MarkConsistent(order: seq<Identifier>, m: Depositors, stored: bool, counter: Option<nat>, pulled: int,
                       user: Identifier)
    requires Consistent(order, m, stored, counter, pulled)
    requires user in m && CounterValue(counter) < U32_MAX
    ensures Consistent(order, MarkAttended(m, user), stored, Some(CounterValue(counter) + 1), pulled)
    ensures CountAttended(order, MarkAttended(m, user)) ==
            CountAttended(order, m) + (if m[user].attended then 0 else 1)
  {
    MarkAttendedCount(order, m, user);
    MarkSum(order, m, user);
  }

  class Distribution {
    /** The contract's own identifier on the token ledger. */
    const contractId: Identifier

    // storage slots
    var admin: Option<Identifier>
    var token: Option<TokenId>
    var depositors: Depositors
    var depositorsStored: bool     // whether the Depositors slot has been written
    var attendedCounter: Option<nat>

    /** The registry's keys in the order `distribute` and `refund` visit them. */
    var order: seq<Identifier>

    /** Balances held by the deployed token contracts. */
    var tokens: map<TokenId, Balances>

    /** Everything ever pulled in by a successful `deposit`. */
    ghost var pulled: int

    ghost predicate Valid()
      reads this
    {
      && contractId.Contract?
      && (admin.Some? <==> token.Some?)
      && Consistent(order, depositors, depositorsStored, attendedCounter, pulled)
    }

    /** A freshly deployed contract: every slot empty. */
    constructor (id: ContractId, deployed: map<TokenId, Balances>)
      ensures Valid()
      ensures contractId == Contract(id) && tokens == deployed
      ensures admin == None && token == None && attendedCounter == None
      ensures depositors == map[] && order == [] && !depositorsStored
    {
      contractId := Contract(id);
      admin, token, attendedCounter := None, None, None;
      depositors, order, depositorsStored := map[], [], false;
      tokens := deployed;
      pulled := 0;
    }

    /** `get_depositors`: the stored registry, empty while the slot is absent. */
    function GetDepositors(): (m: Depositors)
      reads this
      requires Valid()
      ensures m == depositors
      ensures !depositorsStored ==> m == map[]
    {
      if depositorsStored then depositors else map[]
    }

    /** `write_administrator`: sets the Admin slot and nothing else. */
    method WriteAdministrator(id: Identifier)
      modifies this`admin
      ensures admin == Some(id)
    {
      admin := Some(id);
    }

    /** `increment_attended`: the counter, 0 while absent, goes up by one;
        the u32 overflow panics. */
    method IncrementAttended() returns (r: Result<()>)
      modifies this`attendedCounter
      ensures r.Ok? <==> CounterValue(old(attendedCounter)) < U32_MAX
      ensures r.Err? ==> r.error == Overflow && attendedCounter == old(attendedCounter)
      ensures r.Ok? ==> attendedCounter == Some(CounterValue(old(attendedCounter)) + 1)
    {
      var c := CounterValue(attendedCounter);
      if c + 1 > U32_MAX {
        return Err(Overflow);
      }
      attendedCounter := Some(c + 1);
      r := Ok(());
    }

    /** `initialize`: write-once setup of the administrator and the token. */
    method Initialize(newAdmin: Identifier, newToken: TokenId) returns (r: Result<()>)
      requires Valid()
      modifies this
      ensures Valid()
      ensures r.Ok? <==> old(admin).None?
      ensures r.Err? ==> r.error == AlreadyInitialized && unchanged(this)
      ensures r.Ok? ==> admin == Some(newAdmin) && token == Some(newToken)
      ensures r.Ok? ==> && depositors == old(depositors) && order == old(order)
                        && depositorsStored == old(depositorsStored)
                        && attendedCounter == old(attendedCounter) && tokens == old(tokens)
    {
      if Admin.HasAdministrator(admin) {
        return Err(AlreadyInitialized);
      }
      WriteAdministrator(newAdmin);
      token := Some(newToken);
      r := Ok(());
    }

    /** `deposit`: a new record `{amount, false}` for `user`, then `amount`
        pulled from `user` into the contract on the configured token. The
        record is written before the pull; when the pull or the token lookup
        panics the host discards it, which is why it is committed last here.
        `approved` is the token's verdict on the user's authorization and
        allowance for the pull. */
    method Deposit(user: Identifier, amount: I128, approved: bool) returns (r: Result<()>)
      requires Valid()
      modifies this
      ensures Valid()
      ensures r.Ok? <==>
                && user !in old(depositors) && old(token).Some? && old(token).value in old(tokens)
                && XferFrom(old(tokens)[old(token).value], approved, user, contractId, amount).Some?
      ensures user in old(depositors) ==> r == Err(DuplicateDeposit)
      ensures user !in old(depositors) && old(token).None? ==> r == Err(NotInitialized)
      ensures r.Err? ==> unchanged(this)
      ensures r.Ok? ==>
                && depositors == Insert(old(depositors), user, amount)
                && order == old(order) + [user] && depositorsStored
                && admin == old(admin) && token == old(token) && attendedCounter == old(attendedCounter)
                && token.value in tokens && tokens == old(tokens)[token.value := tokens[token.value]]
                && Some(tokens[token.value]) == Xfer(old(tokens)[token.value], user, contractId, amount)
      ensures pulled == old(pulled) + (if r.Ok? then amount else 0)
      ensures Evolves(old(depositors), depositors)
    {
      EvolvesReflexive(depositors);
      var m := GetDepositors();
      if user in m {
        return Err(DuplicateDeposit);
      }
      var m' := Insert(m, user, amount);
      var t := GetToken(token);
      if t.Err? {
        return Err(t.error);
      }
      if t.value !in tokens {
        return Err(NoSuchToken);
      }
      var b := XferFrom(tokens[t.value], approved, user, contractId, amount);
      if b.None? {
        return Err(LedgerFailure);
      }
      InsertConsistent(order, depositors, depositorsStored, attendedCounter, pulled, user, amount);
      InsertEvolves(m, user, amount);
      depositors, order, depositorsStored := m', order + [user], true;
      tokens := tokens[t.value := b.value];
      pulled := pulled + amount;
      r := Ok(());
    }

    /** `attended`: admin-only; sets the user's flag and increments the
        counter on every call, a repeated call on the same user included. */
    method Attended(invoker: Address, user: Identifier) returns (r: Result<()>)
      requires Valid()
      modifies this
      ensures Valid()
      ensures r.Ok? <==>
                && Admin.CheckAdmin(old(admin), invoker).Ok? && user in old(depositors)
                && CounterValue(old(attendedCounter)) < U32_MAX
      ensures Admin.CheckAdmin(old(admin), invoker).Err? ==> r == Admin.CheckAdmin(old(admin), invoker)
      ensures Admin.CheckAdmin(old(admin), invoker).Ok? && user !in old(depositors) ==> r == Err(MissingDeposit)
      ensures r.Err? ==> unchanged(this)
      ensures r.Ok? ==>
                && depositors == MarkAttended(old(depositors), user)
                && attendedCounter == Some(CounterValue(old(attendedCounter)) + 1)
                && admin == old(admin) && token == old(token) && order == old(order)
                && depositorsStored == old(depositorsStored) && tokens == old(tokens)
      ensures r.Ok? ==> CountAttended(order, depositors) ==
                        CountAttended(order, old(depositors)) + (if old(depositors)[user].attended then 0 else 1)
      ensures pulled == old(pulled)
      ensures Evolves(old(depositors), depositors)
    {
      EvolvesReflexive(depositors);
      var g := Admin.CheckAdmin(admin, invoker);
      if g.Err? {
        return g;
      }
      var m := GetDepositors();
      if user !in m {
        return Err(MissingDeposit);
      }
      var marked := MarkAttended(m, user);
      depositors := marked;
      var inc := IncrementAttended();
      if inc.Err? {
        // the host rolls back the registry write
        depositors := m;
        assert unchanged(this);
        return inc;
      }
      MarkedValid(m, old(attendedCounter), user);
      MarkEvolves(m, user);
      r := Ok(());
    }

    /** The state after a successful `attended` satisfies the invariant. */
    lemma MarkedValid(m: Depositors, c0: Option<nat>, user: Identifier)
      requires contractId.Contract? && (admin.Some? <==> token.Some?)
      requires Consistent(order, m, depositorsStored, c0, pulled)
      requires user in m && CounterValue(c0) < U32_MAX
      requires depositors == MarkAttended(m, user) && attendedCounter == Some(CounterValue(c0) + 1)
      ensures Valid()
      ensures CountAttended(order, depositors) == CountAttended(order, m) + (if m[user].attended then 0 else 1)
    {
      MarkConsistent(order, m, depositorsStored, c0, pulled, user);
    }

    /** `distribute`: admin-only; pays `balance / counter` to every attended
        record, visiting the registry in order; the remainder stays with the
        contract. Because the counter is at least the number of attended
        records, no transfer of the loop is ever refused. */
    method Distribute(invoker: Address) returns (r: Result<()>)
      requires Valid()
      modifies this`tokens
      ensures Valid()
      ensures r.Ok? <==>
                && Admin.CheckAdmin(admin, invoker).Ok? && token.Some? && token.value in old(tokens)
                && CounterValue(attendedCounter) > 0
      ensures Admin.CheckAdmin(admin, invoker).Err? ==> r == Admin.CheckAdmin(admin, invoker)
      ensures (&& Admin.CheckAdmin(admin, invoker).Ok? && token.Some? && token.value in old(tokens)
               && attendedCounter.None?) ==> r == Err(NoAttendees)
      ensures r.Err? ==> tokens == old(tokens)
      ensures r.Ok? ==>
                var t := token.value;
                var b0 := old(tokens)[t];
                var share := BalanceOf(b0, contractId) / attendedCounter.value;
                && t in tokens && tokens == old(tokens)[t := tokens[t]]
                && Some(tokens[t]) == XferAll(b0, contractId, DistributionPayments(order, depositors, share))
                && share * CountAttended(order, depositors) <= BalanceOf(b0, contractId)
                && (forall id ::
                      BalanceOf(tokens[t], id) ==
                      BalanceOf(b0, id) - (if id == contractId then share * CountAttended(order, depositors) else 0)
                      + (if IsAttendee(depositors, id) then share else 0))
                && (!IsAttendee(depositors, contractId) ==>
                      BalanceOf(tokens[t], contractId) >= BalanceOf(b0, contractId) % attendedCounter.value)
    {
      var g := Admin.CheckAdmin(admin, invoker);
      if g.Err? {
        return g;
      }
      // check_admin passed, so the contract is initialized and get_token succeeds
      var t := token.value;
      if t !in tokens {
        return Err(NoSuchToken);
      }
      var b0 := tokens[t];
      var balance := BalanceOf(b0, contractId);
      var c := GetAttended(attendedCounter);
      if c.Err? {
        return Err(c.error);
      }
      if c.value == 0 {
        return Err(DivisionByZero);
      }
      var share := balance / c.value;
      var b := PayAttendees(b0, contractId, order, depositors, c.value, share);
      DistributionEffect(b0, contractId, order, depositors, share);
      PayoutWithinBalance(balance, c.value, CountAttended(order, depositors));
      tokens := tokens[t := b];
      r := Ok(());
    }

    /** `refund`: admin-only; pays every depositor back its recorded deposit,
        whatever its flag, visiting the registry in order. No local state
        changes, so nothing stops a second refund or a refund after a
        distribution; such a call fails only when the balance runs short. */
    method Refund(invoker: Address) returns (r: Result<()>)
      requires Valid()
      modifies this`tokens
      ensures Valid()
      ensures r.Ok? <==>
                && Admin.CheckAdmin(admin, invoker).Ok? && token.Some? && token.value in old(tokens)
                && depositorsStored
                && XferAll(old(tokens)[token.value], contractId, RefundPayments(order, depositors)).Some?
      ensures Admin.CheckAdmin(admin, invoker).Err? ==> r == Admin.CheckAdmin(admin, invoker)
      ensures Admin.CheckAdmin(admin, invoker).Ok? && !depositorsStored ==> r == Err(MissingValue)
      ensures (&& Admin.CheckAdmin(admin, invoker).Ok? && depositorsStored && token.Some?
               && token.value !in old(tokens)) ==> r == Err(NoSuchToken)
      ensures r.Err? ==> tokens == old(tokens)
      ensures r.Ok? ==>
                var t := token.value;
                var b0 := old(tokens)[t];
                && t in tokens && tokens == old(tokens)[t := tokens[t]]
                && Some(tokens[t]) == XferAll(b0, contractId, RefundPayments(order, depositors))
                && forall id ::
                     BalanceOf(tokens[t], id) ==
                     BalanceOf(b0, id) - (if id == contractId then SumDeposits(order, depositors) else 0)
                     + DepositOf(depositors, id)
    {
      var g := Admin.CheckAdmin(admin, invoker);
      if g.Err? {
        return g;
      }
      var t := token.value;
      // the Depositors slot is read before the first transfer touches the token
      if !depositorsStored {
        return Err(MissingValue);
      }
      if t !in tokens {
        return Err(NoSuchToken);
      }
      var b0 := tokens[t];
      var paid := RefundDepositors(b0, contractId, order, depositors);
      if paid.None? {
        return Err(LedgerFailure);
      }
      RefundEffect(b0, contractId, order, depositors);
      tokens := tokens[t := paid.value];
      r := Ok(());
    }
  }

  /** The loop of `distribute`: visiting the registry in order, `share` goes
      from the contract to every attended record. Since the counter covers
      the attended records, no transfer is refused. */
  method PayAttendees(b0: Balances, self: Identifier, keys: seq<Identifier>, m: Depositors,
                      counter: nat, share: nat) returns (b: Balances)
    requires forall id :: id in keys ==> id in m
    requires 0 < counter && share == BalanceOf(b0, self) / counter && CountAttended(keys, m) <= counter
    ensures XferAll(b0, self, DistributionPayments(keys, m, share)) == Some(b)
  {
    b := b0;
    var i := 0;
    while i < |keys|
      invariant 0 <= i <= |keys|
      invariant XferAll(b0, self, DistributionPayments(keys[..i], m, share)) == Some(b)
    {
      var id := keys[i];
      if m[id].attended {
        DistributionStepPay(b0, self, keys, m, counter, share, i, b);
        b := Xfer(b, self, id, share).value;
      } else {
        DistributionStepSkip(b0, self, keys, m, share, i, b);
      }
      i := i + 1;
    }
    assert keys[..i] == keys;
  }

  /** The loop of `refund`: visiting the registry in order, each record's
      deposit goes back to its depositor; the first refused transfer fails
      the whole loop. */
  method RefundDepositors(b0: Balances, self: Identifier, keys: seq<Identifier>, m: Depositors)
    returns (r: Option<Balances>)
    requires forall id :: id in keys ==> id in m
    ensures r == XferAll(b0, self, RefundPayments(keys, m))
  {
    ghost var ps := RefundPayments(keys, m);
    var b := b0;
    var i := 0;
    while i < |keys|
      invariant 0 <= i <= |keys|
      invariant XferAll(b0, self, ps[..i]) == Some(b)
    {
      var id := keys[i];
      RefundStep(b0, self, keys, m, i, b);
      var next := Xfer(b, self, id, m[id].deposit);
      if next.None? {
        XferAllFailed(b0, self, ps, i + 1);
        return None;
      }
      b := next.value;
      i := i + 1;
    }
    assert ps[..i] == ps;
    r := Some(b);
  }

  /** A round of `distribute`'s loop that visits a record not attended adds
      no transfer. */
  lemma DistributionStepSkip(b0: Balances, self: Identifier, keys: seq<Identifier>, m: Depositors,
                             share: nat, i: nat, b: Balances)
    requires i < |keys| && !IsAttendee(m, keys[i])
    requires XferAll(b0, self, DistributionPayments(keys[..i], m, share)) == Some(b)
    ensures XferAll(b0, self, DistributionPayments(keys[..i + 1], m, share)) == Some(b)
  {
    var done := keys[..i + 1];
    assert done[..i] == keys[..i];
    var pre := DistributionPayments(keys[..i], m, share);
    var ps := DistributionPayments(done, m, share);
    assert ps == pre + [];
    assert ps == pre;
  }

  /** A round of `distribute`'s loop that visits an attended record adds one
      transfer of `share` to it. */
  lemma DistributionStepUnfold(b0: Balances, self: Identifier, keys: seq<Identifier>, m: Depositors,
                               share: nat, i: nat, b: Balances)
    requires i < |keys| && IsAttendee(m, keys[i])
    requires XferAll(b0, self, DistributionPayments(keys[..i], m, share)) == Some(b)
    ensures XferAll(b0, self, DistributionPayments(keys[..i + 1], m, share)) == Xfer(b, self, keys[i], share)
  {
    var done := keys[..i + 1];
    assert done[..i] == keys[..i];
    var pre := DistributionPayments(keys[..i], m, share);
    var ps := DistributionPayments(done, m, share);
    assert ps == pre + [Payment(keys[i], share)];
    assert ps[..|ps| - 1] == pre;
  }

  /** While the shares of all attended records fit in the starting balance,
      no transfer of `distribute`'s loop is refused. */
  lemma DistributionStepPay(b0: Balances, self: Identifier, keys: seq<Identifier>, m: Depositors,
                            counter: nat, share: nat, i: nat, b: Balances)
    requires i < |keys| && IsAttendee(m, keys[i])
    requires 0 < counter && share == BalanceOf(b0, self) / counter && CountAttended(keys, m) <= counter
    requires XferAll(b0, self, DistributionPayments(keys[..i], m, share)) == Some(b)
    ensures Xfer(b, self, keys[i], share).Some?
    ensures XferAll(b0, self, DistributionPayments(keys[..i + 1], m, share)) == Xfer(b, self, keys[i], share)
  {
    var done := keys[..i + 1];
    var ps := DistributionPayments(done, m, share);
    PayoutWithinBalance(BalanceOf(b0, self), counter, CountAttended(keys, m));
    DistributionStepUnfold(b0, self, keys, m, share, i, b);
    CountAttendedPrefix(keys, m, i + 1);
    MultiplyMonotone(share, CountAttended(done, m), CountAttended(keys, m));
    DistributionPaymentsTotal(done, m, share);
    DistributionPaymentsShape(done, m, share);
    XferAllSucceeds(b0, self, ps);
  }

  /** What a completed `distribute` loop does to the balances: the contract
      pays `share` per attended record, each attended depositor receives
      `share`, nobody else is touched. */
  lemma DistributionEffect(b0: Balances, self: Identifier, keys: seq<Identifier>, m: Depositors, share: nat)
    requires Distinct(keys)
    requires XferAll(b0, self, DistributionPayments(keys, m, share)).Some?
    ensures forall id ::
              BalanceOf(XferAll(b0, self, DistributionPayments(keys, m, share)).value, id) ==
              BalanceOf(b0, id) - (if id == self then share * CountAttended(keys, m) else 0)
              + (if id in keys && IsAttendee(m, id) then share else 0)
  {
    var ps := DistributionPayments(keys, m, share);
    DistributionPaymentsTotal(keys, m, share);
    XferAllEffect(b0, self, ps);
    forall id | true
      ensures Received(ps, id) == if id in keys && IsAttendee(m, id) then share else 0
    {
      DistributionPaymentsReceived(keys, m, share, id);
    }
  }

  /** One round of `refund`'s loop: the next record's deposit goes back to
      its depositor. */
  lemma RefundStep(b0: Balances, self: Identifier, keys: seq<Identifier>, m: Depositors, i: nat, b: Balances)
    requires i < |keys|
    requires XferAll(b0, self, RefundPayments(keys, m)[..i]) == Some(b)
    ensures XferAll(b0, self, RefundPayments(keys, m)[..i + 1]) == Xfer(b, self, keys[i], DepositOf(m, keys[i]))
  {
    var ps := RefundPayments(keys, m);
    assert ps[..i + 1][..i] == ps[..i];
  }

  /** What a completed `refund` loop does to the balances: the contract pays
      out the sum of the deposits and each depositor gets back its own. */
  lemma RefundEffect(b0: Balances, self: Identifier, keys: seq<Identifier>, m: Depositors)
    requires Distinct(keys)
    requires forall id :: id in m ==> id in keys
    requires XferAll(b0, self, RefundPayments(keys, m)).Some?
    ensures forall id ::
              BalanceOf(XferAll(b0, self, RefundPayments(keys, m)).value, id) ==
              BalanceOf(b0, id) - (if id == self then SumDeposits(keys, m) else 0) + DepositOf(m, id)
  {
    RefundPaymentsSpec(keys, m);
    XferAllEffect(b0, self, RefundPayments(keys, m));
  }

  /** Once a prefix of a sequence of transfers fails, the whole sequence does. */
  lemma XferAllFailed(b: Balances, from: Identifier, ps: seq<Payment>, k: nat)
    requires k <= |ps| && XferAll(b, from, ps[..k]).None?
    ensures XferAll(b, from, ps).None?
  {
    if XferAll(b, from, ps).Some? {
      XferAllPrefix(b, from, ps, k);
    }
  }

  /** A refund succeeds whenever the contract's balance covers the recorded
      deposits; when the contract is not itself a depositor it succeeds only
      then. */
  lemma RefundCovered(b: Balances, self: Identifier, keys: seq<Identifier>, m: Depositors)
    requires Distinct(keys)
    requires forall id :: id in keys ==> DepositOf(m, id) >= 0
    ensures SumDeposits(keys, m) <= BalanceOf(b, self) ==> XferAll(b, self, RefundPayments(keys, m)).Some?
    ensures self !in keys ==>
              (XferAll(b, self, RefundPayments(keys, m)).Some? <==> SumDeposits(keys, m) <= BalanceOf(b, self))
  {
    var ps := RefundPayments(keys, m);
    RefundPaymentsSpec(keys, m);
    assert NonNegative(ps);
    if SumDeposits(keys, m) <= BalanceOf(b, self) {
      XferAllSucceeds(b, self, ps);
    } else if self !in keys {
      XferAllFails(b, self, ps);
    }
  }
}
