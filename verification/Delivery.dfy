/** What is known about telling the orchestrator about an incident. */
module Delivery {
  import opened Domain

  datatype Record = Record(transport: string, outcome: Outcome, attempts: int, lastAt: Time)

  /** Stores one attempt. Attempts accumulate. */
  function RecordAttempt(table: map<nat, Record>, id: nat, transport: string, outcome: Outcome, at: Time): map<nat, Record> {
    table[id := Record(transport, outcome, if id in table then table[id].attempts + 1 else 1, at)]
  }

  /** Only a definite failure is worth repeating, and only up to the bound. */
  predicate ShouldAttempt(table: map<nat, Record>, id: nat, maxAttempts: int) {
    id in table ==> table[id].outcome == Failed && table[id].attempts < maxAttempts
  }
}
