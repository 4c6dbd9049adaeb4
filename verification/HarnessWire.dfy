/** What the two nightly-client-harness files say to each other over a socket, line by line. */
module HarnessWire {
  import opened Prelude

  /** A number read from JSON, whole or not; a literal out of range becomes an infinity. */
  datatype Number = Whole(value: int) | Fraction(part: real) | Infinite(negative: bool)

  /** How a number is written back: JSON has no infinity, so it becomes null. */
  function Wire(n: Number): Option<Number> {
    if n.Infinite? then None else Some(n)
  }

  /** The key an id is to a map whose keys are all whole, or none. */
  function Key(id: Option<Number>): Option<int> {
    if id.Some? && id.value.Whole? then Some(id.value.value) else None
  }

  datatype Ask = Ask(operation: string, handle: string, generation: int)

  /** `Noise` is a line the handler keeps nothing of: not JSON, or no numeric id. */
  datatype Line = Noise | Request(id: Number, ask: Ask)

  datatype Reply = Unavailable | Other(body: string)
}
