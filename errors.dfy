/** The errors a bundle reports: load-time collisions and the resolver's recoverable errors. */
module Errors {

  /** What the resolver records in its scope while it still produces a string. */
  datatype ResolverError =
    | Reference(name: string)
    | MissingDefault
    | Cyclic

  datatype FluentError =
    | Overriding(kind: string, id: string)
    | ResolverError(error: ResolverError)

  /** Each scope error converted with `into()`, in the order the scope recorded them. */
  function AsFluentErrors(errors: seq<ResolverError>): (r: seq<FluentError>)
    ensures |r| == |errors|
    ensures forall i :: 0 <= i < |r| ==> r[i] == FluentError.ResolverError(errors[i])
  {
    seq(|errors|, i requires 0 <= i < |errors| => FluentError.ResolverError(errors[i]))
  }
}
