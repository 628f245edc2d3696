/** The counters that meter an operation. */
module Budgets {

  import opened Wrappers

  datatype BudgetError = ResourceLimit(resource: string, limit: nat, observed: nat)

  class Budget {
    var consumed: map<string, nat>

    constructor ()
      ensures consumed == map[]
    {
      consumed := map[];
    }

    function Consumed(resource: string): nat
      reads this
    {
      if resource in consumed then consumed[resource] else 0
    }

    /** Adds to a counter, or refuses and leaves it, naming the total the
        refused step would have reached. */
    method Charge(resource: string, limit: nat, amount: nat) returns (r: Result<nat, BudgetError>)
      modifies this
      ensures r == (var observed := old(Consumed(resource)) + amount;
                    if observed > limit then Err(ResourceLimit(resource, limit, observed)) else Ok(observed))
      ensures Consumed(resource) == if r.Ok? then r.value else old(Consumed(resource))
      ensures forall other :: other != resource ==> Consumed(other) == old(Consumed(other))
    {
      if resource !in consumed {
        consumed := consumed[resource := 0];
      }
      var observed := consumed[resource] + amount;
      if observed > limit {
        return Err(ResourceLimit(resource, limit, observed));
      }
      consumed := consumed[resource := observed];
      return Ok(observed);
    }
  }
}
