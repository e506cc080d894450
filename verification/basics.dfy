/**
 Shared value types of the model: optional values, the reply of a host
 platform call, and the outcome of a callback that may throw.
 */
module Basics {

  /** A value that may be absent (an `undefined` or `null` in the extension). */
  datatype Option<T> = None | Some(value: T)

  /** The reply of an asynchronous browser call: either a value, or
      `chrome.runtime.lastError` set when the callback runs. */
  datatype Reply<T> = Ok(value: T) | HostError

  /** What a callback body does: it either finishes with a value, or throws a
      `TypeError` (reading `.id` of an `undefined` active tab) and ends there. */
  datatype Outcome<T> = Returned(value: T) | Threw
}
