/**
 * The helpers of internal/engine/matching.go that the order book uses:
 * `min`, and the trade-id and execution-id counters. The source keeps the
 * counters in package globals; here they are the fields of one explicit
 * id source that is handed to whoever emits trades.
 */
module Counters {

  /** matching.go's own `min` (it shadows the builtin): the first argument when it is strictly smaller, else the second. */
  function Min(a: int, b: int): (r: int)
    ensures r <= a && r <= b
    ensures r == a || r == b
    ensures a < b ==> r == a
  {
    if a < b then a else b
  }

  /** A monotonic id source holding the trade-id and execution-id counters. */
  class IdSource {
    var tradeIDCounter: nat
    var executionCounter: nat

    constructor ()
      ensures tradeIDCounter == 0 && executionCounter == 0
    {
      tradeIDCounter := 0;
      executionCounter := 0;
    }

    /** Advances the trade-id counter and returns its new value. */
    method GenerateTradeID() returns (id: nat)
      modifies this`tradeIDCounter
      ensures id == old(tradeIDCounter) + 1 && tradeIDCounter == id
      ensures id > old(tradeIDCounter)
    {
      tradeIDCounter := tradeIDCounter + 1;
      id := tradeIDCounter;
    }

    /** Advances the execution counter and returns its new value. */
    method NextExecutionID() returns (id: nat)
      modifies this`executionCounter
      ensures id == old(executionCounter) + 1 && executionCounter == id
      ensures id > old(executionCounter)
    {
      executionCounter := executionCounter + 1;
      id := executionCounter;
    }
  }
}
