/** The depositor registry of the escrow contract as values: one record per
    depositor, the registry's keys in the order the payout loops visit them,
    and the quantities the payout and refund loops are specified by. */
module Registry {
  import opened Host
  import opened Ledger
  import opened Split

  /** A depositor's record: what was pulled in and whether the administrator
      has marked the depositor as attended. */
  datatype Depositor = Depositor(deposit: I128, attended: bool)

  type Depositors = map<Identifier, Depositor>

  predicate Distinct(keys: seq<Identifier>) {
    forall i, j :: 0 <= i < j < |keys| ==> keys[i] != keys[j]
  }

  predicate IsAttendee(m: Depositors, id: Identifier) {
    id in m && m[id].attended
  }

  function DepositOf(m: Depositors, id: Identifier): int {
    if id in m then m[id].deposit else 0
  }

  /** The record `deposit` inserts for a new depositor. */
  function Insert(m: Depositors, user: Identifier, amount: I128): (r: Depositors)
    requires user !in m
    ensures r.Keys == m.Keys + {user}
    ensures r[user] == Depositor(amount, false)
    ensures forall id :: id in m ==> r[id] == m[id]
  {
    m[user := Depositor(amount, false)]
  }

  /** The update `attended` makes: only the user's flag, set to true. */
  function MarkAttended(m: Depositors, user: Identifier): (r: Depositors)
    requires user in m
    ensures r.Keys == m.Keys
    ensures r[user].attended && r[user].deposit == m[user].deposit
    ensures forall id :: id in m && id != user ==> r[id] == m[id]
  {
    m[user := m[user].(attended := true)]
  }

  /** Records are never removed, deposits never change, flags never go back. */
  predicate Evolves(m0: Depositors, m1: Depositors) {
    forall id :: id in m0 ==>
                   id in m1 && m1[id].deposit == m0[id].deposit && (m0[id].attended ==> m1[id].attended)
  }

  lemma EvolvesReflexive(m: Depositors)
    ensures Evolves(m, m)
  {
  }

  /** `deposit` and `attended` only let the registry evolve. */
  lemma InsertEvolves(m: Depositors, user: Identifier, amount: I128)
    requires user !in m
    ensures Evolves(m, Insert(m, user, amount))
  {
  }

  lemma MarkEvolves(m: Depositors, user: Identifier)
    requires user in m
    ensures Evolves(m, MarkAttended(m, user))
  {
  }

  /** Number of attended records among `keys`. */
  function CountAttended(keys: seq<Identifier>, m: Depositors): nat
    decreases |keys|
  {
    if keys == [] then 0
    else CountAttended(keys[..|keys| - 1], m) + (if IsAttendee(m, keys[|keys| - 1]) then 1 else 0)
  }

  /** Sum of the recorded deposits of `keys`. */
  function SumDeposits(keys: seq<Identifier>, m: Depositors): int
    decreases |keys|
  {
    if keys == [] then 0
    else SumDeposits(keys[..|keys| - 1], m) + DepositOf(m, keys[|keys| - 1])
  }

  /** The transfers `distribute` issues while visiting `keys`: `share` to
      each attended record, nothing to the others. */
  function DistributionPayments(keys: seq<Identifier>, m: Depositors, share: nat): (ps: seq<Payment>)
    ensures |ps| == CountAttended(keys, m)
    decreases |keys|
  {
    if keys == [] then []
    else
      var last := keys[|keys| - 1];
      DistributionPayments(keys[..|keys| - 1], m, share)
        + (if IsAttendee(m, last) then [Payment(last, share)] else [])
  }

  /** The transfers `refund` issues while visiting `keys`: each record's
      deposit back to its depositor, whatever its flag. */
  function RefundPayments(keys: seq<Identifier>, m: Depositors): (ps: seq<Payment>)
    ensures |ps| == |keys|
    ensures forall i :: 0 <= i < |keys| ==> ps[i] == Payment(keys[i], DepositOf(m, keys[i]))
    decreases |keys|
  {
    if keys == [] then []
    else RefundPayments(keys[..|keys| - 1], m) + [Payment(keys[|keys| - 1], DepositOf(m, keys[|keys| - 1]))]
  }

  lemma {:induction false} CountAttendedFrame(keys: seq<Identifier>, m1: Depositors, m2: Depositors)
    requires forall k :: k in keys ==> (IsAttendee(m1, k) <==> IsAttendee(m2, k))
    ensures CountAttended(keys, m1) == CountAttended(keys, m2)
    decreases |keys|
  {
    if keys != [] {
      CountAttendedFrame(keys[..|keys| - 1], m1, m2);
    }
  }

  lemma {:induction false} SumDepositsFrame(keys: seq<Identifier>, m1: Depositors, m2: Depositors)
    requires forall k :: k in keys ==> DepositOf(m1, k) == DepositOf(m2, k)
    ensures SumDeposits(keys, m1) == SumDeposits(keys, m2)
    decreases |keys|
  {
    if keys != [] {
      SumDepositsFrame(keys[..|keys| - 1], m1, m2);
    }
  }

  /** The attended records among a prefix are among the whole. */
  lemma {:induction false} CountAttendedPrefix(keys: seq<Identifier>, m: Depositors, i: nat)
    requires i <= |keys|
    ensures CountAttended(keys[..i], m) <= CountAttended(keys, m)
    decreases |keys|
  {
    if i < |keys| {
      var pre := keys[..|keys| - 1];
      assert pre[..i] == keys[..i];
      CountAttendedPrefix(pre, m, i);
    } else {
      assert keys[..i] == keys;
    }
  }

  /** Marking a depositor raises the count of attended records by one if the
      flag was false and leaves it as it is if the flag was already true. */
  lemma {:induction false} MarkAttendedCount(keys: seq<Identifier>, m: Depositors, user: Identifier)
    requires Distinct(keys) && user in m
    ensures CountAttended(keys, MarkAttended(m, user)) ==
            CountAttended(keys, m) + (if user in keys && !m[user].attended then 1 else 0)
    decreases |keys|
  {
    if keys != [] {
      var pre, last := keys[..|keys| - 1], keys[|keys| - 1];
      assert Distinct(pre);
      if last == user {
        assert user !in pre by {
          forall j | 0 <= j < |pre| ensures pre[j] != user {
            assert keys[j] != keys[|keys| - 1];
          }
        }
        CountAttendedFrame(pre, m, MarkAttended(m, user));
      } else {
        MarkAttendedCount(pre, m, user);
        assert user in keys <==> user in pre by {
          assert keys == pre + [last];
        }
      }
    }
  }

  /** A new record, whose flag is false, does not change the count. */
  lemma InsertCount(keys: seq<Identifier>, m: Depositors, user: Identifier, amount: I128)
    requires user !in m && user !in keys
    ensures CountAttended(keys + [user], Insert(m, user, amount)) == CountAttended(keys, m)
  {
    var ks := keys + [user];
    assert ks[..|ks| - 1] == keys;
    CountAttendedFrame(keys, m, Insert(m, user, amount));
  }

  /** A new record adds its deposit to the sum of deposits. */
  lemma InsertSum(keys: seq<Identifier>, m: Depositors, user: Identifier, amount: I128)
    requires user !in m && user !in keys
    ensures SumDeposits(keys + [user], Insert(m, user, amount)) == SumDeposits(keys, m) + amount
  {
    var ks := keys + [user];
    assert ks[..|ks| - 1] == keys;
    SumDepositsFrame(keys, m, Insert(m, user, amount));
  }

  /** Marking attendance does not change the sum of deposits. */
  lemma MarkSum(keys: seq<Identifier>, m: Depositors, user: Identifier)
    requires user in m
    ensures SumDeposits(keys, MarkAttended(m, user)) == SumDeposits(keys, m)
  {
    SumDepositsFrame(keys, m, MarkAttended(m, user));
  }

  /** `distribute` pays `share` times the number of attended records in all. */
  lemma {:induction false} DistributionPaymentsTotal(keys: seq<Identifier>, m: Depositors, share: nat)
    ensures Total(DistributionPayments(keys, m, share)) == share * CountAttended(keys, m)
    decreases |keys|
  {
    if keys != [] {
      var pre, last := keys[..|keys| - 1], keys[|keys| - 1];
      DistributionPaymentsTotal(pre, m, share);
      var ps := DistributionPayments(pre, m, share);
      if IsAttendee(m, last) {
        var qs := ps + [Payment(last, share)];
        assert qs[..|qs| - 1] == ps;
        MultiplySucc(share, CountAttended(pre, m));
      } else {
        assert DistributionPayments(keys, m, share) == ps + [] == ps;
      }
    }
  }

  /** Every transfer of `distribute` is of `share`, to an attended record. */
  lemma {:induction false} DistributionPaymentsShape(keys: seq<Identifier>, m: Depositors, share: nat)
    ensures forall p :: p in DistributionPayments(keys, m, share) ==> p.amount == share && IsAttendee(m, p.to)
    ensures NonNegative(DistributionPayments(keys, m, share))
    decreases |keys|
  {
    if keys != [] {
      DistributionPaymentsShape(keys[..|keys| - 1], m, share);
    }
  }

  /** Over distinct keys `distribute` pays `share` to every attended record
      and to nobody else. */
  lemma {:induction false} DistributionPaymentsReceived(keys: seq<Identifier>, m: Depositors, share: nat, id: Identifier)
    requires Distinct(keys)
    ensures Received(DistributionPayments(keys, m, share), id) ==
            if id in keys && IsAttendee(m, id) then share else 0
    decreases |keys|
  {
    if keys != [] {
      var pre, last := keys[..|keys| - 1], keys[|keys| - 1];
      assert Distinct(pre);
      assert keys == pre + [last];
      assert last !in pre by {
        forall j | 0 <= j < |pre| ensures pre[j] != last {
          assert keys[j] != keys[|keys| - 1];
        }
      }
      DistributionPaymentsReceived(pre, m, share, id);
      var ps := DistributionPayments(pre, m, share);
      if IsAttendee(m, last) {
        var qs := ps + [Payment(last, share)];
        assert DistributionPayments(keys, m, share) == qs;
        assert qs[..|qs| - 1] == ps;
      } else {
        assert DistributionPayments(keys, m, share) == ps + [] == ps;
      }
    }
  }

  /** `refund`'s transfers over distinct keys: each depositor gets back
      exactly its deposit, the sum of the deposits in all. */
  lemma {:induction false} RefundPaymentsSpec(keys: seq<Identifier>, m: Depositors)
    requires Distinct(keys)
    ensures Total(RefundPayments(keys, m)) == SumDeposits(keys, m)
    ensures forall id ::
              Received(RefundPayments(keys, m), id) == if id in keys then DepositOf(m, id) else 0
    decreases |keys|
  {
    if keys != [] {
      var pre, last := keys[..|keys| - 1], keys[|keys| - 1];
      assert Distinct(pre);
      assert keys == pre + [last];
      assert last !in pre by {
        forall j | 0 <= j < |pre| ensures pre[j] != last {
          assert keys[j] != keys[|keys| - 1];
        }
      }
      RefundPaymentsSpec(pre, m);
      var ps := RefundPayments(keys, m);
      assert ps[..|ps| - 1] == RefundPayments(pre, m);
    }
  }
}
