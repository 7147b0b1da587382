# FluentBundle registry and formatting front end, in Dafny

This project models the front end of `FluentBundle` from the `fluent-bundle`
crate (Rust): the single registry that maps an id to a message, a term or a
registered function; the two ways entries get in (`add_function`,
`add_resource`), both first-writer-wins; the `has_message` query; and the two
formatting entry points, `format` and `compound`. These decide which pattern is
resolved, when the whole call yields `None`, and how the errors recorded
during resolution are handed back.

Modules:

- `Wrappers`: `Option` and `Result`.
- `Ast`: the parsed FTL nodes a bundle consumes. These are messages, terms,
  attributes, patterns and resource entries, including comments and junk.
- `Entries`: the bundle's `Entry` (`Message`, `Term` or `Function`), the
  registry map, and the message lookup behind `has_message`.
- `Errors`: `FluentError::Overriding` and the resolver's errors.
- `Resolution`: the resolver seen from the outside, as a function parameter.
  Also the per-call `Scope`, a class whose error list grows with every
  resolution.
- `Paths`: finding the first `.` in a path and splitting the path there.
- `Loading`: what `add_resource` does, as functions on values. `LoadFrom`
  follows the loop. `Rejected` and `FirstDeclaration` are independent
  front-to-back definitions, and lemmas prove the two sides agree.
- `Lookup`: the pattern `format` selects, and the attribute map and error
  list `compound` builds.
- `Bundle`: the class `FluentBundle`, whose methods change its `entries` map
  in place. Its loops run over the resource body (`bundle.rs:233`), the
  message's attributes (`:449`) and the scope's errors (`:384`, `:458`).

The registry follows the code's layout. Messages, terms and functions share
one map keyed by the bare id (`bundle.rs:87`). `add_resource` keys messages
and terms alike by `id.name` (`bundle.rs:236`), and FTL's leading `-` on a term
reference is not part of that key. A message, a term and a function with the
same id text therefore collide.

`format` returns `None` in three cases: the message id is unknown, the path
names an attribute the message lacks, or a bare path names a message without a
value. The model has the same three cases.

`format("id.name")` resolves the FIRST attribute called `name`
(`iter().find`). `compound` inserts every attribute into a map in order, so
for a repeated name it keeps the LAST one. `Lookup.SelectPattern` and
`Lookup.AttributeTextsLastWins` state the two behaviours.
`Lookup.FormatAgreesWithCompound` proves that the two agree when the name
occurs once.

## Model

| member | source | states |
|---|---|---|
| `Bundle.FluentBundle.constructor` | fluent-bundle/src/bundle.rs:122-126 | a new bundle keeps its locale chain and starts with an empty registry |
| `Bundle.FluentBundle.HasMessage` | fluent-bundle/src/bundle.rs:145-147 | true exactly when the entry under the id is a message; a term or function with that id does not count |
| `Entries.GetMessage` | fluent-bundle/src/bundle.rs:146 | yields the message stored under the id, and nothing when the id is absent or holds a term or function |
| `Entries.ExtendsKeepsMessages` | fluent-bundle/src/bundle.rs:145-147 | in a registry that only grew, a message found before is still found, unchanged |
| `Bundle.FluentBundle.AddFunction` | fluent-bundle/src/bundle.rs:180-197 | a vacant id gets the function and `Ok`; an id held by any kind of entry gives `Overriding{kind: "function", id}` and leaves the registry unchanged; existing entries and messages are never lost |
| `Bundle.FluentBundle.AddResource` | fluent-bundle/src/bundle.rs:230-266 | the loop leaves the registry the loading specification gives; the result is `Ok` exactly when no declaration was rejected, otherwise `Err` holds the rejections in resource order; the registry only grows |
| `Loading.Declared` | fluent-bundle/src/bundle.rs:233-246 | only messages and terms declare an entry; comments and junk are skipped |
| `Loading.LoadErrorsAreRejections` | fluent-bundle/src/bundle.rs:231-258 | the errors are exactly one `Overriding{kind, id}` per message or term whose id was already taken, by the bundle or by an earlier item, in resource order, with kind "message" or "term" |
| `Loading.LoadFromErrors` | fluent-bundle/src/bundle.rs:248-258 | from any state of the loop, the error list grows by exactly the rejections of the remaining items |
| `Loading.LoadFromEntries` | fluent-bundle/src/bundle.rs:248-251 | from any state of the loop, an id ends up holding its existing entry or else its first declaration |
| `Loading.LoadFirstWriterWins` | fluent-bundle/src/bundle.rs:248-258 | after loading, the ids are the old ones plus every declared id; a new id holds its first declaration in the resource |
| `Loading.LoadExtends` | fluent-bundle/src/bundle.rs:248-258 | loading never removes or replaces an existing entry |
| `Loading.LoadFromKeepsKeyed` | fluent-bundle/src/bundle.rs:234-250 | every message and term stays stored under its own id |
| `Loading.LoadSkipsNonDeclarations` | fluent-bundle/src/bundle.rs:233-246 | a comment or junk item anywhere in a resource changes neither the registry nor the errors |
| `Loading.RejectedEmptyIff` | fluent-bundle/src/bundle.rs:252-265 | no error is reported exactly when no declaration meets an id already in the bundle or declared earlier in the resource |
| `Loading.LoadedDeclarationsAreStored` | fluent-bundle/src/bundle.rs:248-262 | after an error-free load every message and term of the resource is stored under its id |
| `Loading.LoadedMessagesAreFound` | fluent-bundle/src/bundle.rs:140-147 | after an error-free load every message of the resource is found by `has_message`'s lookup, as declared |
| `Paths.FindFirst` | fluent-bundle/src/bundle.rs:354 | the index found holds the character, and no earlier index does; none is found exactly when the character is absent |
| `Paths.SplitPath` | fluent-bundle/src/bundle.rs:354-357 | the id has no '.'; a path without '.' is all id; otherwise the path is id, '.', attribute name |
| `Paths.SplitJoinedPath` | fluent-bundle/src/bundle.rs:354-357 | splitting `id.name` gives back `id` and `name`, even when `name` contains dots |
| `Lookup.FindAttribute` | fluent-bundle/src/bundle.rs:358-361 | finds the first attribute with the name; finds none exactly when no attribute has it |
| `Lookup.SelectPattern` | fluent-bundle/src/bundle.rs:354-381 | None exactly when the id is not a message, the named attribute is missing, or a bare id names a message without a value; otherwise the message's value, or its first attribute with the name, with the node naming the message and attribute |
| `Lookup.SelectedNodeNamesPath` | fluent-bundle/src/bundle.rs:362-378 | the node handed to the resolver names the id and attribute written in the path |
| `Lookup.AttributeTextsKeys` | fluent-bundle/src/bundle.rs:447-456 | the keys of `compound`'s attribute map are exactly the message's attribute names |
| `Lookup.AttributeTextsLastWins` | fluent-bundle/src/bundle.rs:447-456 | under each name the map holds the text of the last attribute with that name |
| `Lookup.FormatAgreesWithCompound` | fluent-bundle/src/bundle.rs:354-361 | for an attribute name that occurs once, `format("id.name")` resolves the same pattern and node as the text `compound(id)` stores under the name |
| `Resolution.Scope.constructor` | fluent-bundle/src/bundle.rs:350 | a new scope holds the registry and arguments and no errors |
| `Resolution.Scope.ResolveValueForEntry` | fluent-bundle/src/bundle.rs:362-367 | yields the resolver's text and appends the resolver's errors to the scope, after those already there |
| `Bundle.FluentBundle.Format` | fluent-bundle/src/bundle.rs:345-389 | None exactly when the path selects no pattern; otherwise the resolver's text for the selected pattern, with the errors it recorded, in order |
| `Bundle.FluentBundle.Compound` | fluent-bundle/src/bundle.rs:433-463 | None exactly when the id is not a message; the value is present exactly when the message has one; the attributes are the compound attribute map; the errors are the value's, then each attribute's, in order |
| `Bundle.ResolveAttributes` | fluent-bundle/src/bundle.rs:447-456 | the loop leaves the compound attribute map and appends every attribute's errors to the scope, attribute by attribute |
| `Errors.AsFluentErrors` | fluent-bundle/src/bundle.rs:384-386 | each resolver error becomes `FluentError::ResolverError` (the `err.into()` conversion), one for one, in the same order |
| `Bundle.DrainErrors` | fluent-bundle/src/bundle.rs:384-386 | the call's error list is the scope's errors, each converted, in the same order |

## Left out

- Bundle construction: language negotiation against the plural-rule locales, the "en" fallback, and building `IntlPluralRules`, which panics on failure. The constructor only stores the locale chain. The plural rules are not a field of the model.
- Pattern resolution: variables, message and term references, function calls, select expressions, the cycle guard, and `FluentValue::to_string`. These live in `resolve.rs` and `types.rs`, which are not part of this model. `Resolution.Resolver` is a parameter standing for them. It maps the registry, the arguments, a pattern and its node to a text and the errors recorded. Its cycle-guard stack returns to where it started after each top-level resolution, so only errors pass from one resolution to the next.
- The resolver's error variants follow the kinds the resolver is known to record, because `resolve.rs` is not part of this model. Only their order and their conversion into `FluentError` matter here.
- `get_message` lives in `entry.rs`, which is not part of this model. It is taken to find the entry under the id and to accept only a message.
- Registered closures (`Box<dyn Fn ...>`) and their `Sync + Send` bounds: a function entry holds an opaque handle.
- FTL parsing (`FluentResource::try_new`, `res.ast()`): a resource arrives as its body of entries. Placeable contents are kept only as text.
- Borrowing, lifetimes, `Cow`, and `HashMap` iteration order: the registry and the attribute map are Dafny maps, and ids are strings of characters. Rust's `find('.')` gives a byte offset, which can differ from the character index that `Paths.FindFirst` gives (in `né.x` the '.' is at byte 3 but character 2). Because '.' is a single-byte character, its byte offset is always a character boundary. Slicing at it (`bundle.rs:355`, `:357`) therefore yields the same two substrings as the character-index split in `Paths.SplitPath`.
- Concurrent use of a bundle: everything is sequential.
