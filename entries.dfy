/**
 * What a bundle stores under an id: a message, a term or a registered function.
 * All three kinds share one map keyed by the bare id, so equal id text collides
 * whatever the kinds are.
 */
module Entries {
  import opened Wrappers
  import Ast

  /** An opaque handle standing for a registered native closure. */
  datatype Callable = Callable(handle: nat)

  datatype Entry =
    | Message(message: Ast.Message)
    | Term(term: Ast.Term)
    | Function(callable: Callable)

  type Registry = map<string, Entry>

  /** The message stored under `id`, if the entry there is a message. */
  function GetMessage(entries: Registry, id: string): (r: Option<Ast.Message>)
    ensures r.Some? <==> id in entries && entries[id].Message?
    ensures r.Some? ==> entries[id] == Message(r.value)
  {
    if id in entries && entries[id].Message? then Some(entries[id].message) else None
  }

  /** Every message and term is stored under its own id. */
  ghost predicate Keyed(entries: Registry) {
    forall k :: k in entries ==>
      (entries[k].Message? ==> entries[k].message.id == k) &&
      (entries[k].Term? ==> entries[k].term.id == k)
  }

  /** `after` keeps every entry of `before` unchanged: the registry only grows. */
  ghost predicate Extends(before: Registry, after: Registry) {
    forall k :: k in before ==> k in after && after[k] == before[k]
  }

  /** Once a message is found under `id`, a registry that only grew still finds it. */
  lemma ExtendsKeepsMessages(before: Registry, after: Registry, id: string)
    requires Extends(before, after)
    ensures GetMessage(before, id).Some? ==> GetMessage(after, id) == GetMessage(before, id)
  {
  }
}
