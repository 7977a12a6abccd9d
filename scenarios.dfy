/** Concrete scenarios of both contracts, mirroring the repository's tests: each
    method deploys a contract next to a token with its balances minted, makes
    the calls the test makes and returns the balances the test inspects. */
module Scenarios {
  import opened Host
  import opened Ledger
  import opened Registry
  import V2 = DistributionV2
  import V1 = Distribution

  const Tok: TokenId := 7
  const AdminAccount: AccountId := 10

  /** The first `k` of the three test users, in the order they deposit. */
  function Users(k: nat): (u: seq<Identifier>)
    ensures |u| == k
  {
    if k == 0 then [] else Users(k - 1) + [Account(k)]
  }

  /** Every user among the first `k` has a number at most `k`. */
  lemma {:induction false} UsersBelow(k: nat, id: Identifier)
    requires id in Users(k)
    ensures id.Account? && 1 <= id.account <= k
  {
    if id != Account(k) {
      assert id in Users(k - 1);
      UsersBelow(k - 1, id);
    }
  }

  lemma UsersThree()
    ensures Users(3) == [Account(1), Account(2), Account(3)]
  {
    assert Users(1) == [Account(1)];
    assert Users(2) == [Account(1), Account(2)];
  }

  /** A record of 1000, not attended. */
  predicate Unattended(m: Depositors, id: Identifier) {
    id in m && m[id] == Depositor(1000, false)
  }

  /** The escrow of the tests after the first `k` users deposited 1000 each:
      their records are unattended, their balances 0, the others' 1000. */
  ghost predicate Escrowed(c: V2.Distribution, k: nat)
    reads c
  {
    && c.Valid() && c.admin == Some(Account(AdminAccount)) && c.token == Some(Tok) && Tok in c.tokens
    && c.contractId == Contract(100) && c.attendedCounter == None
    && k <= 3 && c.order == Users(k)
    && (forall i | 1 <= i <= k :: Unattended(c.depositors, Account(i)))
    && BalanceOf(c.tokens[Tok], Contract(100)) == 1000 * k
    && (forall i | 1 <= i <= 3 :: BalanceOf(c.tokens[Tok], Account(i)) == if i <= k then 0 else 1000)
  }

  /** Deployment and `initialize`, with 1000 minted to each user. */
  method Deploy() returns (c: V2.Distribution)
    ensures fresh(c) && Escrowed(c, 0)
  {
    var minted: Balances := map[Account(1) := 1000, Account(2) := 1000, Account(3) := 1000];
    c := new V2.Distribution(100, map[Tok := minted]);
    var r := c.Initialize(Account(AdminAccount), Tok);
    assert Users(0) == [];
  }

  /** The next user's approved deposit of 1000. */
  method DepositNext(c: V2.Distribution, k: nat)
    requires Escrowed(c, k) && k < 3
    modifies c
    ensures Escrowed(c, k + 1)
  {
    var user := Account(k + 1);
    assert user !in c.depositors by {
      if user in c.order {
        UsersBelow(k, user);
      }
    }
    ghost var m0, b0 := c.depositors, c.tokens[Tok];
    var r := c.Deposit(user, 1000, true);
    RecordsAfterDeposit(m0, k);
    BalancesAfterDeposit(b0, c.tokens[Tok], k);
  }

  /** The records after the `k+1`-th deposit. */
  lemma RecordsAfterDeposit(m: Depositors, k: nat)
    requires Account(k + 1) !in m
    requires forall i | 1 <= i <= k :: Unattended(m, Account(i))
    ensures forall i | 1 <= i <= k + 1 :: Unattended(Insert(m, Account(k + 1), 1000), Account(i))
  {
  }

  /** The balances after the `k+1`-th deposit. */
  lemma BalancesAfterDeposit(b0: Balances, b: Balances, k: nat)
    requires k < 3 && Some(b) == Xfer(b0, Account(k + 1), Contract(100), 1000)
    requires BalanceOf(b0, Contract(100)) == 1000 * k
    requires forall i | 1 <= i <= 3 :: BalanceOf(b0, Account(i)) == if i <= k then 0 else 1000
    ensures BalanceOf(b, Contract(100)) == 1000 * (k + 1)
    ensures forall i | 1 <= i <= 3 :: BalanceOf(b, Account(i)) == if i <= k + 1 then 0 else 1000
  {
    forall i | 1 <= i <= 3
      ensures BalanceOf(b, Account(i)) == if i <= k + 1 then 0 else 1000
    {
      assert BalanceOf(b0, Account(i)) == if i <= k then 0 else 1000;
    }
  }

  /** Three depositors of 1000 each, already approved for the pull. */
  method SetUpEscrow() returns (c: V2.Distribution)
    ensures fresh(c) && c.Valid()
    ensures c.admin == Some(Account(AdminAccount)) && c.token == Some(Tok) && Tok in c.tokens
    ensures c.contractId == Contract(100)
    ensures c.order == [Account(1), Account(2), Account(3)]
    ensures Unattended(c.depositors, Account(1)) && Unattended(c.depositors, Account(2))
    ensures Unattended(c.depositors, Account(3))
    ensures c.attendedCounter == None
    ensures BalanceOf(c.tokens[Tok], Contract(100)) == 3000
    ensures BalanceOf(c.tokens[Tok], Account(1)) == 0 && BalanceOf(c.tokens[Tok], Account(2)) == 0
    ensures BalanceOf(c.tokens[Tok], Account(3)) == 0
  {
    c := Deploy();
    DepositNext(c, 0);
    DepositNext(c, 1);
    DepositNext(c, 2);
    UsersThree();
  }

  /** The administrator marks one depositor as attended. */
  method Attend(c: V2.Distribution, user: Identifier)
    requires c.Valid() && c.admin == Some(Account(AdminAccount)) && user in c.depositors
    requires V2.CounterValue(c.attendedCounter) < 100
    modifies c
    ensures c.Valid() && c.admin == old(c.admin) && c.token == old(c.token) && c.order == old(c.order)
    ensures c.tokens == old(c.tokens)
    ensures IsAttendee(c.depositors, user)
    ensures forall id :: id != user ==> (IsAttendee(c.depositors, id) <==> IsAttendee(old(c.depositors), id))
    ensures c.attendedCounter == Some(V2.CounterValue(old(c.attendedCounter)) + 1)
  {
    var r := c.Attended(AccountAddress(AdminAccount), user);
  }

  /** Users 1 and 2 attended, user 3 did not: two attended records. */
  lemma TwoAttended(m: Depositors)
    requires IsAttendee(m, Account(1)) && IsAttendee(m, Account(2)) && !IsAttendee(m, Account(3))
    ensures CountAttended([Account(1), Account(2), Account(3)], m) == 2
  {
    var keys := [Account(1), Account(2), Account(3)];
    assert keys[..2][..1] == [Account(1)] && keys[..2] == [Account(1), Account(2)];
    assert CountAttended([Account(1)], m) == 1;
    assert CountAttended([Account(1), Account(2)], m) == 2;
  }

  /** Only user 1 attended: one attended record. */
  lemma OneAttended(m: Depositors)
    requires IsAttendee(m, Account(1)) && !IsAttendee(m, Account(2)) && !IsAttendee(m, Account(3))
    ensures CountAttended([Account(1), Account(2), Account(3)], m) == 1
  {
    var keys := [Account(1), Account(2), Account(3)];
    assert keys[..2][..1] == [Account(1)] && keys[..2] == [Account(1), Account(2)];
    assert CountAttended([Account(1)], m) == 1;
    assert CountAttended([Account(1), Account(2)], m) == 1;
  }

  /** The administrator's `distribute` on a pool of 3000 with the counter
      at 2: a share of 1500 to each attended record. */
  method PayOut(c: V2.Distribution)
    requires c.Valid() && c.admin == Some(Account(AdminAccount)) && c.token == Some(Tok) && Tok in c.tokens
    requires c.attendedCounter == Some(2) && c.contractId == Contract(100)
    requires BalanceOf(c.tokens[Tok], Contract(100)) == 3000 && !IsAttendee(c.depositors, Contract(100))
    modifies c
    ensures Tok in c.tokens && c.depositors == old(c.depositors) && c.order == old(c.order)
    ensures BalanceOf(c.tokens[Tok], Contract(100)) == 3000 - 1500 * CountAttended(c.order, c.depositors)
    ensures forall id :: id != Contract(100) ==>
              BalanceOf(c.tokens[Tok], id) == BalanceOf(old(c.tokens[Tok]), id) + (if IsAttendee(c.depositors, id) then 1500 else 0)
  {
    assert BalanceOf(c.tokens[Tok], Contract(100)) / 2 == 1500;
    var r := c.Distribute(AccountAddress(AdminAccount));
  }

  /** Two of the three attend: each gets 1500, the third nothing, and the
      pool ends empty. */
  method DistributeScenario() returns (pool: nat, user1: nat, user2: nat, user3: nat)
    ensures pool == 0 && user1 == 1500 && user2 == 1500 && user3 == 0
  {
    var c := SetUpEscrow();
    Attend(c, Account(1));
    Attend(c, Account(2));
    TwoAttended(c.depositors);
    PayOut(c);
    var b := c.tokens[Tok];
    pool, user1, user2, user3 := BalanceOf(b, c.contractId), BalanceOf(b, Account(1)), BalanceOf(b, Account(2)), BalanceOf(b, Account(3));
  }

  /** Nobody attends: every deposit comes back and the pool ends empty. */
  method RefundScenario() returns (pool: nat, user1: nat, user2: nat, user3: nat)
    ensures pool == 0 && user1 == 1000 && user2 == 1000 && user3 == 1000
  {
    var c := SetUpEscrow();
    ghost var m := c.depositors;
    assert SumDeposits(c.order, m) == 3000 by {
      var keys := c.order;
      assert keys[..2][..1] == [Account(1)] && keys[..2] == [Account(1), Account(2)];
      assert SumDeposits([Account(1)], m) == 1000;
      assert SumDeposits([Account(1), Account(2)], m) == 2000;
    }
    V2.RefundCovered(c.tokens[Tok], c.contractId, c.order, m);
    var r := c.Refund(AccountAddress(AdminAccount));
    var b := c.tokens[Tok];
    pool, user1, user2, user3 := BalanceOf(b, c.contractId), BalanceOf(b, Account(1)), BalanceOf(b, Account(2)), BalanceOf(b, Account(3));
  }

  /** With no successful `attended` call, `distribute` fails with "no
      attendees" and the pool keeps all 3000. */
  method NoAttendeesScenario() returns (r: Result<()>, pool: nat)
    ensures r == Err(NoAttendees) && pool == 3000
  {
    var c := SetUpEscrow();
    r := c.Distribute(AccountAddress(AdminAccount));
    pool := BalanceOf(c.tokens[Tok], c.contractId);
  }

  /** Marking the same depositor twice counts twice: the counter reaches 2
      with one attended record, so that depositor gets half the pool and
      the other half stays in the contract. */
  method RepeatedAttendanceScenario() returns (counter: nat, pool: nat, user1: nat)
    ensures counter == 2 && pool == 1500 && user1 == 1500
  {
    var c := SetUpEscrow();
    Attend(c, Account(1));
    Attend(c, Account(1));
    counter := c.attendedCounter.value;
    OneAttended(c.depositors);
    PayOut(c);
    var b := c.tokens[Tok];
    pool, user1 := BalanceOf(b, c.contractId), BalanceOf(b, Account(1));
  }

  /** A second `initialize` fails and keeps the first administrator and token. */
  method SecondInitializeScenario() returns (first: Result<()>, second: Result<()>, admin: Option<Identifier>, token: Option<TokenId>)
    ensures first.Ok? && second == Err(AlreadyInitialized)
    ensures admin == Some(Account(1)) && token == Some(Tok)
  {
    var c := new V2.Distribution(100, map[]);
    first := c.Initialize(Account(1), Tok);
    second := c.Initialize(Account(2), Tok + 1);
    admin, token := c.admin, c.token;
  }

  /** A balance of 100 split between two payees: 50 each, nothing left. */
  method EqualSplitScenario() returns (pool: nat, user1: nat, user2: nat)
    ensures pool == 0 && user1 == 50 && user2 == 50
  {
    var c := new V1.Distribution(100, map[Tok := map[Contract(100) := 100]]);
    c.Initialize({Account(1), Account(2)});
    assert |{Account(1), Account(2)}| == 2;
    var r := c.Distribute(Tok);
    var b := c.tokens[Tok];
    pool, user1, user2 := BalanceOf(b, c.contractId), BalanceOf(b, Account(1)), BalanceOf(b, Account(2));
  }

  /** `initialize` has no guard: the payee set of the last call is the one
      `distribute` pays. */
  method LastInitializeWinsScenario() returns (pool: nat, user1: nat, user2: nat)
    ensures pool == 0 && user1 == 0 && user2 == 100
  {
    var c := new V1.Distribution(100, map[Tok := map[Contract(100) := 100]]);
    c.Initialize({Account(1)});
    c.Initialize({Account(2)});
    var r := c.Distribute(Tok);
    var b := c.tokens[Tok];
    pool, user1, user2 := BalanceOf(b, c.contractId), BalanceOf(b, Account(1)), BalanceOf(b, Account(2));
  }
}
