/**
 * The parsed FTL nodes a bundle consumes (the `fluent_syntax::ast` types).
 * Parsing is not part of this model: a resource arrives as its body of entries.
 * The insides of a placeable are kept only as their source text, because
 * evaluating them is the resolver's business (see module Resolution).
 */
module Ast {
  import opened Wrappers

  datatype PatternElement = TextElement(value: string) | Placeable(expression: string)

  datatype Pattern = Pattern(elements: seq<PatternElement>)

  datatype Attribute = Attribute(id: string, value: Pattern)

  /** A message may lack a value, provided it has attributes. */
  datatype Message = Message(id: string, value: Option<Pattern>, attributes: seq<Attribute>)

  /** A term always has a value. */
  datatype Term = Term(id: string, value: Pattern, attributes: seq<Attribute>)

  datatype Entry =
    | MessageEntry(message: Message)
    | TermEntry(term: Term)
    | CommentEntry(content: string)

  /** Junk is text the parser could not read; it is kept in the body as such. */
  datatype ResourceEntry = EntryItem(entry: Entry) | Junk(content: string)

  datatype Resource = Resource(body: seq<ResourceEntry>)
}
