/** The administrator guard of the escrow contract: reads of the Admin storage
    slot and the check that the invoker is the stored administrator. The slot
    is given as its current value; writing it is `WriteAdministrator` of the
    contract class. */
module Admin {
  import opened Host

  /** Whether the Admin slot is set. */
  function HasAdministrator(slot: Option<Identifier>): (r: bool)
    ensures r <==> exists id :: slot == Some(id)
  {
    slot.Some?
  }

  /** The stored administrator; reading the empty slot is a host error. */
  function ReadAdministrator(slot: Option<Identifier>): (r: Result<Identifier>)
    ensures r.Ok? <==> HasAdministrator(slot)
    ensures r.Ok? ==> slot == Some(r.value)
    ensures r.Err? ==> r.error == MissingValue
  {
    match slot
    case Some(id) => Ok(id)
    case None => Err(MissingValue)
  }

  /** Passes exactly when the invoker is an account whose identifier is the
      stored administrator. A contract invoker is refused without reading the
      slot; an account invoker with no administrator stored fails on the read. */
  function CheckAdmin(slot: Option<Identifier>, invoker: Address): (r: Result<()>)
    ensures r.Ok? <==> invoker.AccountAddress? && slot == Some(Account(invoker.account))
    ensures invoker.ContractAddress? ==> r == Err(NotAuthorized)
    ensures invoker.AccountAddress? && !HasAdministrator(slot) ==> r == Err(MissingValue)
    ensures invoker.AccountAddress? && HasAdministrator(slot) && r.Err? ==> r == Err(NotAuthorized)
  {
    match invoker
    case ContractAddress(_) => Err(NotAuthorized)
    case AccountAddress(a) =>
      match ReadAdministrator(slot)
      case Err(e) => Err(e)
      case Ok(id) => if Account(a) == id then Ok(()) else Err(NotAuthorized)
  }
}
