# Pooled-fund distribution contracts, modelled in Dafny

Two small Soroban contracts that hold tokens on behalf of a group and pay
them out.

- **Distribution v2 (escrow with attendance).**
  - `initialize` stores an administrator and a token id, once.
  - Anyone may `deposit` an amount. This writes a record
    `{deposit, attended: false}` for the depositor and pulls the amount from the
    depositor into the contract on that token.
  - The administrator marks depositors with `attended`. Each call increments a
    u32 counter of attendance, repeats included.
  - The administrator then calls `distribute` or `refund`:
    - `distribute` pays `balance / counter` to every attended record and
      leaves the remainder with the contract;
    - `refund` pays every record its deposit back.
  - The administrator guard (`check_admin`) passes only when the invoking
    account is the stored administrator.
- **Distribution v1 (equal split).**
  - `initialize` overwrites a set of payees; it has no guard.
  - `distribute(token)` pays each payee `balance / |payees|` from the
    contract's balance on that token. The remainder stays in the contract.

How the model represents the system:

- **Storage slots** are fields of a class per contract.
- **Token contracts** are the field `tokens`, a map from token id to a balance
  map. A token id with no entry is a token contract that does not exist.
- **Panics.** A call that panics is rolled back by the host. Every method that
  can fail returns `Result<()>`, and on `Err` it leaves every field as it was, balances
  included.
- **Payout loops.**
  - The v2 loops are specified by the sequence of transfers they issue
    (`DistributionPayments`, `RefundPayments`). Lemmas in `Registry` and
    `Ledger` turn those transfers into per-identifier balance changes.
  - The v1 loop is proved directly against the per-identifier formula.
- **The key invariant of v2** is part of `Distribution.Valid()`, through
  `Consistent`: the
  attendance counter is never below the number of attended records. This holds
  because the counter is incremented on every successful `attended`. It follows,
  under the ledger model of `ledger.dfy`, that no transfer of `distribute` is ever refused and that the total paid,
  `share × #attended`, never exceeds the balance.

Files:

- `host.dfy`: identifiers, addresses, `Option`/`Result`, error kinds and
  integer widths.
- `ledger.dfy`: the token contract seen as balances.
- `admin.dfy`: `admin.rs`.
- `split.dfy`: the division arithmetic.
- `registry.dfy`: the v2 depositor registry as values.
- `distribution_v2.dfy`: the v2 contract.
- `distribution.dfy`: the v1 contract.
- `scenarios.dfy`: the scenarios of the repository's tests, stated and proved.

## Model

| member | source | states |
|---|---|---|
| Admin.HasAdministrator | distribution_v2/src/admin.rs:5-8 | true exactly when the Admin slot holds an identifier |
| Admin.ReadAdministrator | distribution_v2/src/admin.rs:10-13 | returns the stored administrator; an empty slot is a MissingValue failure |
| Admin.CheckAdmin | distribution_v2/src/admin.rs:20-27 | passes iff the invoker is an account whose identifier is the stored admin; a contract invoker or any other account is NotAuthorized; an account invoker with no admin stored fails with MissingValue |
| DistributionV2.Distribution.WriteAdministrator | distribution_v2/src/admin.rs:15-18 | the Admin slot becomes `Some(id)`; nothing else may change (frame `this`admin`) |
| DistributionV2.CounterValue | distribution_v2/src/lib.rs:39 | the counter `increment_attended` reads agrees with `get_attended` when the slot is present and is 0 where `get_attended` fails |
| DistributionV2.Consistent | distribution_v2/src/lib.rs:78-121 | the contract invariant that `deposit` and `attended` keep: each key listed once in visiting order, the registry stored once it has a record, deposits non-negative and summing to what was pulled in, and the u32 counter never below the number of attended records |
| DistributionV2.GetAttended | distribution_v2/src/lib.rs:30-35 | the counter when the Attended slot is present, otherwise "no attendees" |
| DistributionV2.GetToken | distribution_v2/src/lib.rs:43-48 | the token id when the Token slot is present, otherwise "not initialized" |
| DistributionV2.Distribution.GetDepositors | distribution_v2/src/lib.rs:50-55 | the stored registry, and the empty map while the Depositors slot is absent |
| DistributionV2.Distribution.constructor | distribution_v2/src/lib.rs:11-17 | a fresh deployment: all four slots empty, the invariant holds |
| DistributionV2.Distribution.IncrementAttended | distribution_v2/src/lib.rs:37-41 | the counter, 0 while absent, becomes c+1; at u32::MAX it fails with Overflow and leaves the counter unchanged |
| DistributionV2.Distribution.Initialize | distribution_v2/src/lib.rs:69-76 | fails with AlreadyInitialized iff an admin is stored, changing nothing; otherwise stores both admin and token and touches nothing else |
| DistributionV2.Distribution.Deposit | distribution_v2/src/lib.rs:78-103 | succeeds iff the user has no record, the token is set and exists, and the pull is accepted by the token; then inserts exactly `{amount, false}`, appends the user to the visiting order and moves `amount` from the user to the contract; a duplicate fails with DuplicateDeposit, a missing token with NotInitialized, and any failure leaves registry and balances unchanged; the invariant (counter ≥ attended records, deposits ≥ 0) is preserved and records only evolve |
| DistributionV2.Distribution.Attended | distribution_v2/src/lib.rs:105-121 | succeeds iff the admin check passes, the user has a record and the counter is below u32::MAX; then sets only that user's flag, keeps its deposit and every other record, and raises the counter by one on every call; the count of attended records rises by one only when the flag was false; a failed admin check propagates its error, a missing user is MissingDeposit, and any failure changes nothing |
| DistributionV2.Distribution.Distribute | distribution_v2/src/lib.rs:123-142 | succeeds iff the admin check passes, the token exists and the counter is positive; with the counter absent it fails with "no attendees" and moves nothing; on success its balances are those of transferring `share = balance / counter` to each attended record in order, the contract loses `share × #attended ≤ balance`, each attended depositor gains `share`, nobody else is touched, and at least `balance % counter` stays with the contract |
| DistributionV2.Distribution.Refund | distribution_v2/src/lib.rs:144-154 | succeeds iff the admin check passes, the token exists, the registry is stored and the transfers are accepted; after the admin check an absent registry fails with MissingValue before the token is touched, and a stored registry with a missing token fails with NoSuchToken; on success each depositor gets back exactly its recorded deposit, whatever its flag, and the contract loses the sum of the deposits; local state never changes |
| DistributionV2.InsertConsistent | distribution_v2/src/lib.rs:86-93 | a new unattended record with a non-negative deposit keeps the invariant: keys listed once, the counter covering the attended records, the deposits summed |
| DistributionV2.MarkConsistent | distribution_v2/src/lib.rs:112-120 | setting one flag while raising the counter by one keeps the counter at or above the number of attended records, which grows by one only for a flag that was false |
| DistributionV2.Distribution.MarkedValid | distribution_v2/src/lib.rs:112-120 | the state a successful `attended` leaves satisfies the contract invariant |
| DistributionV2.PayAttendees | distribution_v2/src/lib.rs:136-141 | the loop of `distribute` ends with exactly the balances of the transfers `DistributionPayments` lists, none of them refused |
| DistributionV2.RefundDepositors | distribution_v2/src/lib.rs:150-153 | the loop of `refund` ends with the balances of the transfers `RefundPayments` lists, or fails exactly when that sequence is refused |
| DistributionV2.DistributionStepSkip | distribution_v2/src/lib.rs:138 | a record not attended adds no transfer to distribute's loop |
| DistributionV2.DistributionStepUnfold | distribution_v2/src/lib.rs:138-140 | an attended record adds one transfer of `share` to it |
| DistributionV2.DistributionStepPay | distribution_v2/src/lib.rs:136-141 | while the counter covers the attended records, the next transfer of distribute's loop is never refused |
| DistributionV2.DistributionEffect | distribution_v2/src/lib.rs:136-141 | after the loop the contract has paid `share × #attended` and each attended record received `share`, nobody else changed |
| DistributionV2.RefundStep | distribution_v2/src/lib.rs:150-153 | one round of refund's loop is one transfer of the record's deposit to its depositor |
| DistributionV2.RefundEffect | distribution_v2/src/lib.rs:150-153 | after the loop the contract has paid the sum of the deposits and each depositor received its own deposit |
| DistributionV2.XferAllFailed | distribution_v2/src/lib.rs:150-153 | a refused transfer inside the loop fails the whole refund |
| DistributionV2.RefundCovered | distribution_v2/src/lib.rs:144-154 | a refund succeeds whenever the balance covers the sum of deposits, and, when the contract is not itself a depositor, only then |
| Registry.Depositor | distribution_v2/src/lib.rs:19-24 | a depositor's record: its deposit, an i128, and its attendance flag |
| Registry.Insert | distribution_v2/src/lib.rs:86-92 | the new record is `{amount, false}`, the keys gain the user, and every other record is untouched |
| Registry.MarkAttended | distribution_v2/src/lib.rs:112-118 | the keys are unchanged, the user's flag is true with its deposit kept, and every other record is untouched |
| Registry.DistributionPayments | distribution_v2/src/lib.rs:136-141 | the transfers of distribute's loop: one per attended record visited, so exactly as many as there are attended records |
| Registry.RefundPayments | distribution_v2/src/lib.rs:150-153 | one transfer per visited record, in order, of exactly that record's deposit |
| Registry.InsertEvolves | distribution_v2/src/lib.rs:86-92 | inserting a record removes none and changes no deposit or flag |
| Registry.MarkEvolves | distribution_v2/src/lib.rs:112-118 | marking attendance removes no record, changes no deposit and only sets a flag |
| Registry.MarkAttendedCount | distribution_v2/src/lib.rs:112-120 | marking a user raises the number of attended records by one iff its flag was false |
| Registry.InsertCount | distribution_v2/src/lib.rs:86-92 | a new record leaves the number of attended records unchanged |
| Registry.InsertSum | distribution_v2/src/lib.rs:86-92 | a new record adds its deposit to the sum of deposits |
| Registry.MarkSum | distribution_v2/src/lib.rs:112-118 | marking attendance leaves the sum of deposits unchanged |
| Registry.CountAttendedPrefix | distribution_v2/src/lib.rs:136-141 | the attended records among the keys visited so far are at most those of the whole registry |
| Registry.DistributionPaymentsTotal | distribution_v2/src/lib.rs:136-141 | distribute's transfers add up to `share × #attended` |
| Registry.DistributionPaymentsShape | distribution_v2/src/lib.rs:138-140 | every transfer of distribute is of `share` and goes to an attended record |
| Registry.DistributionPaymentsReceived | distribution_v2/src/lib.rs:136-141 | over distinct keys, each attended record receives `share` once and every other identifier nothing |
| Registry.RefundPaymentsSpec | distribution_v2/src/lib.rs:150-153 | refund's transfers add up to the sum of deposits and give each depositor exactly its deposit |
| Ledger.Xfer | distribution_v2/src/lib.rs:139 | the token accepts a transfer iff the amount is non-negative and covered by the sender; then only sender and receiver change, by the amount |
| Ledger.XferFrom | distribution_v2/src/lib.rs:96-102 | the pull succeeds iff it is approved and covered, and then moves the amount as a transfer does |
| Ledger.XferAll | distribution_v2/src/lib.rs:150-153 | the loop's transfers issued one after another, where the first refusal fails the whole call; a run that succeeds only moved non-negative amounts |
| Ledger.XferAllEffect | distribution_v2/src/lib.rs:150-153 | a successful run of transfers takes their total from the sender and gives each identifier what was addressed to it |
| Ledger.XferAllSucceeds | distribution_v2/src/lib.rs:136-141 | non-negative transfers whose total the sender holds never fail |
| Ledger.XferAllFails | distribution_v2/src/lib.rs:150-153 | transfers that pay nothing back to the sender fail when their total exceeds its balance |
| Ledger.XferAllPrefix | distribution_v2/src/lib.rs:150-153 | every prefix of a successful run of transfers succeeds |
| Ledger.ReceivedBounds | distribution_v2/src/lib.rs:150-153 | what one identifier receives lies between 0 and the total |
| Split.PayoutWithinBalance | distribution_v2/src/lib.rs:131-132 | `balance / counter` paid to at most `counter` heads fits in the balance and leaves at least `balance % counter`, exactly that when all `counter` are paid |
| Split.SharesFit | distribution/src/lib.rs:54-56 | `n` shares of `balance / n` fit in the balance |
| Split.RepeatIsProduct | distribution/src/lib.rs:58-65 | the running total of a payout loop after `k` rounds is `share × k` |
| Distribution.Distribution.constructor | distribution/src/lib.rs:23-26 | a fresh deployment with no Payees slot |
| Distribution.Distribution.Initialize | distribution/src/lib.rs:44-46 | overwrites the payee set unconditionally: the last call wins |
| Distribution.Distribution.Distribute | distribution/src/lib.rs:48-66 | fails with NoSuchToken for a missing token, MissingValue before any initialize, DivisionByZero for an empty payee set, each moving nothing; otherwise every payee receives the same `share = balance / n` once, the contract pays `share × n ≤ balance`, nobody else changes, and the contract keeps exactly `balance % n` when it is not itself a payee |
| Distribution.PayEqually | distribution/src/lib.rs:58-65 | whatever order the payee set is visited in, each payee ends with `share` more, the contract with `share` per payee less, nobody else changes |
| Distribution.SplitStep | distribution/src/lib.rs:58-65 | paying a payee not yet paid while the remaining shares fit in the balance moves exactly that share |
| Scenarios.Deploy | distribution_v2/src/test.rs:60-95 | deployment and `initialize` with 1000 minted to each of three users |
| Scenarios.DepositNext | distribution_v2/src/test.rs:106-108 | each user's deposit of 1000 moves 1000 into the contract and inserts an unattended record |
| Scenarios.SetUpEscrow | distribution_v2/src/test.rs:106-112 | three deposits of 1000 leave the contract at 3000 and the depositors at 0, with three unattended records |
| Scenarios.Attend | distribution_v2/src/test.rs:114-119 | an admin `attended` call sets the flag and raises the counter |
| Scenarios.TwoAttended | distribution_v2/src/test.rs:114-119 | with users 1 and 2 marked there are two attended records |
| Scenarios.OneAttended | distribution_v2/src/lib.rs:112-120 | with only user 1 marked there is one attended record |
| Scenarios.PayOut | distribution_v2/src/test.rs:120 | `distribute` on 3000 with the counter at 2 pays 1500 to each attended record |
| Scenarios.DistributeScenario | distribution_v2/src/test.rs:98-126 | two of three attend: 1500, 1500 and 0, contract at 0 |
| Scenarios.RefundScenario | distribution_v2/src/test.rs:128-150 | everyone gets 1000 back, contract at 0 |
| Scenarios.NoAttendeesScenario | distribution_v2/src/lib.rs:132 | distribute without any attended call fails with "no attendees" and the pool keeps 3000 |
| Scenarios.RepeatedAttendanceScenario | distribution_v2/src/lib.rs:120 | marking one user twice makes the counter 2, so that user gets 1500 and 1500 stays in the contract |
| Scenarios.SecondInitializeScenario | distribution_v2/src/lib.rs:69-76 | a second initialize fails and keeps the first admin and token |
| Scenarios.EqualSplitScenario | distribution/src/test.rs:34-65 | 100 over two payees: 50 each, contract at 0 |
| Scenarios.LastInitializeWinsScenario | distribution/src/lib.rs:44-46 | after two initialize calls only the last payee set is paid |

## Left out

- Storage serialization, `RawVal` conversions and their unwraps: the slots are typed fields. The one unwrap that can fail in practice, an absent slot, is modelled as MissingValue.
- The token contract's internals:
  - Balances are unbounded non-negative integers; the i128 bound on token balances is not modelled.
  - The token's authorization and allowance check for `xfer_from` is the boolean parameter `approved`.
  - The token refusing a negative amount is an assumption of the ledger model, not taken from code shown here.
  - The token's other refusals are not modelled: a transfer is refused only for a negative amount or one the sender cannot cover, never because the token's admin has deauthorized an account. The claim that no transfer of `distribute` is refused holds under this ledger model.
  - `Signature::Invoker` and the nonce `0` are authorization plumbing of the token and are left out.
- The invoker and the current contract id come from the host. They are a parameter and a constant field.
- Map and set iteration order:
  - v2 visits records in the order they were inserted (`order`). The host map visits them in key order.
  - v1 visits the payee set in an order left open.
  - The paid amounts do not depend on the order.
  - Whether a refund fails could depend on the order only if the contract were itself a depositor.
- DistributionV2.Distribution.Distribute: the remainder is stated as at least `balance % counter` and only when the contract is not an attended record itself. It equals `balance - share × #attended`, which is at least `balance % counter`, and strictly above it when the counter exceeds the number of attended records and `share > 0`.
- DistributionV2.Distribution.Refund: when it succeeds it is proved in terms of the whole sequence of transfers. Its failure condition is characterised by `DistributionV2.RefundCovered` rather than in the method's contract.
- The `Ed25519` identifier is carried as an opaque key; no signature is checked.
- The router test helpers (`liquidity_pool_router/src/testutils.rs`, `single_offer_router/src/testutils.rs`) and `upgradeable_contract/old_contract/src/test.rs` are not part of this model. They build signed messages for, or upgrade, contracts whose code is not shown.
- The efficiency comment on the growing map (`distribution_v2/src/lib.rs:79`) and the requirements notes (`distribution/src/lib.rs:9-21`) describe no behaviour.
- The counter is incremented on every `attended` call, repeats included, exactly as written. There is no settlement state, so `distribute` and `refund` may be called again; nothing was added that the code lacks.
