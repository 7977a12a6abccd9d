/** Boundary types of the contract host: identifiers of accounts and contracts,
    the invoker's address, the failure kinds a contract call can end with, and
    the integer widths the contracts use. */
module Host {

  type AccountId = nat
  type ContractId = nat

  /** A 32-byte token contract id, kept opaque. */
  type TokenId = nat

  /** The token interface's identifier of a principal. */
  datatype Identifier = Account(account: AccountId) | Contract(contract: ContractId) | Ed25519(key: nat)

  /** The host's view of who invoked the current call. */
  datatype Address = AccountAddress(account: AccountId) | ContractAddress(contract: ContractId)

  datatype Option<T> = None | Some(value: T) {
    function GetOr(default: T): T {
      if Some? then value else default
    }
  }

  /** Why a contract call ends in a panic (which the host rolls back). */
  datatype Error =
    | AlreadyInitialized   // "already initialized"
    | NotAuthorized        // "not authorized by admin"
    | MissingValue         // unwrap of a storage slot that holds nothing
    | NotInitialized       // "not initialized": no Token slot
    | NoAttendees          // "no attendees": no Attended slot
    | DuplicateDeposit     // "deposit already set for user"
    | MissingDeposit       // "deposit missing for user"
    | Overflow             // checked_add on the u32 counter
    | DivisionByZero       // checked_div by 0
    | NoSuchToken          // the token id names no deployed token contract
    | LedgerFailure        // the token contract refused a transfer

  datatype Result<T> = Ok(value: T) | Err(error: Error)

  const U32_MAX: nat := 0xFFFF_FFFF
  const I128_MIN: int := -0x8000_0000_0000_0000_0000_0000_0000_0000
  const I128_MAX: int := 0x7FFF_FFFF_FFFF_FFFF_FFFF_FFFF_FFFF_FFFF

  type I128 = x: int | I128_MIN <= x <= I128_MAX
}
