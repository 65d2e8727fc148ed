/** The record types that the libclang front end produces for each function it
    collects, and that the query parser produces for a query. */
module Collector {

  /** An unsigned 32-bit integer, as used for line and column numbers. */
  newtype u32 = x: int | 0 <= x < 0x1_0000_0000

  /** A function's return type, ordered parameter types and variadic flag.
      An empty parameter list is a legal value, distinct from `["void"]`. */
  datatype FunctionSignature = FunctionSignature(returnType: string, params: seq<string>, isVariadic: bool)

  /** A collected function: its name, its location (file, line, column) and its signature. */
  datatype Function = Function(name: string, location: (string, u32, u32), signature: FunctionSignature)

  /** The front end substitutes `void` for an empty parameter list, so the
      signature of every collected candidate has at least one parameter. */
  predicate IsCollected(sig: FunctionSignature) {
    |sig.params| > 0
  }
}
