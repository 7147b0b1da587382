/**
 * The boundary to the pattern resolver. Evaluating a pattern (variables,
 * references, function calls, select expressions, the cycle guard) is not
 * part of this model: the resolver is a parameter. Given the registry, the
 * caller's arguments, a pattern and the node it belongs to, it yields the
 * displayed text and the errors it records, in order. Its cycle-guard stack
 * is back to where it started when a top-level resolution returns, so the
 * only state one resolution leaves in the scope for the next is its errors.
 */
module Resolution {
  import opened Wrappers
  import opened Errors
  import Ast
  import Entries

  /** A runtime value a caller passes in as an argument. */
  datatype FluentValue = String(text: string) | Number(text: string) | NoValue

  type Args = map<string, FluentValue>

  /** The message (and attribute) a pattern belongs to, used for fallback text. */
  datatype DisplayableNode = DisplayableNode(id: string, attribute: Option<string>)

  datatype Resolved = Resolved(text: string, errors: seq<ResolverError>)

  type Resolver = (Entries.Registry, Option<Args>, Ast.Pattern, DisplayableNode) -> Resolved

  /** The per-call environment: the registry, the arguments and the errors gathered so far. */
  class Scope {
    const entries: Entries.Registry
    const args: Option<Args>
    var errors: seq<ResolverError>

    constructor (entries: Entries.Registry, args: Option<Args>)
      ensures this.entries == entries && this.args == args
      ensures errors == []
    {
      this.entries := entries;
      this.args := args;
      errors := [];
    }

    /** Resolves one pattern, appending what it records to this scope's errors. */
    method ResolveValueForEntry(resolve: Resolver, pattern: Ast.Pattern, node: DisplayableNode)
      returns (text: string)
      modifies this
      ensures text == resolve(entries, args, pattern, node).text
      ensures errors == old(errors) + resolve(entries, args, pattern, node).errors
    {
      var resolved := resolve(entries, args, pattern, node);
      errors := errors + resolved.errors;
      text := resolved.text;
    }
  }
}
