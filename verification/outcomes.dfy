/** How the page's awaited calls end. Every call into the wallet, the contract
    proxy or a parsing library is a parameter of the model: the caller says
    whether it returned (and with what) or threw. */
module Outcomes {

  /** A write: `await contract.f(...)` followed by `await tx.wait()`.
      `Failed` covers a throw from either step (a revert, a rejected
      signature, a missing contract object). */
  datatype TxResult = Confirmed | Failed

  /** A read or library call: it returns a value or throws. */
  datatype Reply<+T> = Returned(value: T) | Threw

  /** A decoded value, or nothing when the input is malformed. */
  datatype Option<+T> = None | Some(value: T)
}
