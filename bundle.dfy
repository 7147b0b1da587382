/**
 * `FluentBundle`: one locale's registry of messages, terms and functions, and
 * the two formatting entry points. Loading and registration change the
 * registry in place; formatting reads it and gathers errors in a scope of its own.
 */
module Bundle {
  import opened Wrappers
  import Ast
  import opened Errors
  import opened Entries
  import opened Paths
  import opened Resolution
  import opened Loading
  import opened Lookup

  /** What `compound` returns: the resolved value, if any, and each attribute's text by name. */
  datatype FormattedMessage = FormattedMessage(value: Option<string>, attributes: map<string, string>)

  class FluentBundle {
    var locales: seq<string>
    var entries: Registry

    ghost predicate Valid()
      reads this
    {
      Keyed(entries)
    }

    /** Keeps the locale chain and starts with no entries. */
    constructor (locales: seq<string>)
      ensures Valid()
      ensures this.locales == locales && entries == map[]
    {
      this.locales := locales;
      entries := map[];
    }

    /** Whether the entry under `id` is a message (a term or function of that id does not count). */
    function HasMessage(id: string): (b: bool)
      reads this
      ensures b <==> id in entries && entries[id].Message?
    {
      GetMessage(entries, id).Some?
    }

    /** Registers `func` under a vacant id; an occupied id of any kind is refused and nothing changes. */
    method AddFunction(id: string, func: Callable) returns (r: Result<(), FluentError>)
      modifies this
      ensures old(Valid()) ==> Valid()
      ensures locales == old(locales)
      ensures Extends(old(entries), entries)
      ensures id in old(entries) ==> r == Err(Overriding("function", id)) && entries == old(entries)
      ensures id !in old(entries) ==> r == Ok(()) && entries == old(entries)[id := Function(func)]
      ensures forall m :: old(HasMessage(m)) ==> HasMessage(m)
    {
      if id !in entries {
        entries := entries[id := Function(func)];
        r := Ok(());
      } else {
        r := Err(Overriding("function", id));
      }
    }

    /**
     * Adds every message and term of the resource whose id is vacant, in order;
     * each one whose id is taken (by the bundle or by an earlier item of the same
     * resource) is dropped and reported. Ok exactly when nothing was dropped.
     */
    method AddResource(res: Ast.Resource) returns (r: Result<(), seq<FluentError>>)
      requires Valid()
      modifies this
      ensures Valid() && locales == old(locales)
      ensures entries == Load(old(entries), res.body).entries
      ensures r.Ok? <==> Rejected(old(entries).Keys, res.body) == []
      ensures r.Err? ==> r.error == Rejected(old(entries).Keys, res.body)
      ensures Extends(old(entries), entries)
      ensures forall m :: old(HasMessage(m)) ==> HasMessage(m)
    {
      ghost var start := entries;
      var errors: seq<FluentError> := [];
      var i := 0;
      while i < |res.body|
        invariant 0 <= i <= |res.body|
        invariant Loaded(entries, errors) == Load(start, res.body[..i])
        invariant locales == old(locales)
      {
        assert res.body[..i + 1][..i] == res.body[..i];
        var item := res.body[i];
        match Declared(item) {
          case None =>
          case Some(d) =>
            if d.id !in entries {
              entries := entries[d.id := d.entry];
            } else {
              errors := errors + [Overriding(d.kind, d.id)];
            }
        }
        i := i + 1;
      }
      assert res.body[..i] == res.body;
      LoadFromKeepsKeyed(Loaded(start, []), res.body);
      LoadErrorsAreRejections(start, res.body);
      LoadExtends(start, res.body);
      forall m | GetMessage(start, m).Some? ensures GetMessage(entries, m) == GetMessage(start, m) {
        ExtendsKeepsMessages(start, entries, m);
      }
      if errors == [] {
        r := Ok(());
      } else {
        r := Err(errors);
      }
    }

    /**
     * Formats the value (bare id) or the attribute (`id.name`) that `path`
     * selects. None when `path` selects nothing; otherwise the resolver's text
     * with the errors it recorded, in order.
     */
    method Format(path: string, args: Option<Args>, resolve: Resolver)
      returns (r: Option<(string, seq<FluentError>)>)
      ensures r.None? <==> SelectPattern(entries, path).None?
      ensures r.Some? ==>
        var (pattern, node) := SelectPattern(entries, path).value;
        var resolved := resolve(entries, args, pattern, node);
        r.value == (resolved.text, AsFluentErrors(resolved.errors))
    {
      var env := new Scope(entries, args);
      var text: string;
      var position := FindFirst(path, '.');
      if position.Some? {
        var messageId := path[..position.value];
        var message := GetMessage(entries, messageId);
        if message.None? {
          return None;
        }
        var attrName := path[position.value + 1..];
        var attr := FindAttribute(message.value.attributes, attrName);
        if attr.None? {
          return None;
        }
        var node := DisplayableNode(message.value.id, Some(attr.value.id));
        text := env.ResolveValueForEntry(resolve, attr.value.value, node);
        assert SelectPattern(entries, path) == Some((attr.value.value, node));
        assert env.errors == resolve(entries, args, attr.value.value, node).errors;
      } else {
        var message := GetMessage(entries, path);
        if message.None? || message.value.value.None? {
          return None;
        }
        var node := DisplayableNode(message.value.id, None);
        text := env.ResolveValueForEntry(resolve, message.value.value.value, node);
        assert SelectPattern(entries, path) == Some((message.value.value.value, node));
        assert env.errors == resolve(entries, args, message.value.value.value, node).errors;
      }
      var errors := DrainErrors(env);
      r := Some((text, errors));
    }

    /**
     * Formats a message's value (if it has one) and every attribute, in that
     * order and in one scope. None exactly when `messageId` is not a message.
     */
    method Compound(messageId: string, args: Option<Args>, resolve: Resolver)
      returns (r: Option<(FormattedMessage, seq<FluentError>)>)
      ensures r.None? <==> GetMessage(entries, messageId).None?
      ensures r.Some? ==>
        var m := GetMessage(entries, messageId).value;
        var valueErrors := if m.value.Some? then resolve(entries, args, m.value.value, DisplayableNode(m.id, None)).errors else [];
        && (r.value.0.value.Some? <==> m.value.Some?)
        && (m.value.Some? ==> r.value.0.value.value == resolve(entries, args, m.value.value, DisplayableNode(m.id, None)).text)
        && r.value.0.attributes == AttributeTexts(resolve, entries, args, m.id, m.attributes)
        && r.value.1 == AsFluentErrors(valueErrors + AttributeErrors(resolve, entries, args, m.id, m.attributes))
    {
      var registry := entries;
      var env := new Scope(registry, args);
      var message := GetMessage(registry, messageId);
      if message.None? {
        return None;
      }
      var m := message.value;
      var value: Option<string> := None;
      if m.value.Some? {
        var text := env.ResolveValueForEntry(resolve, m.value.value, DisplayableNode(m.id, None));
        value := Some(text);
      }
      ghost var valueErrors := env.errors;
      assert valueErrors == if m.value.Some? then resolve(registry, args, m.value.value, DisplayableNode(m.id, None)).errors else [];
      var attributes := ResolveAttributes(env, resolve, m.id, m.attributes);
      var errors := DrainErrors(env);
      r := Some((FormattedMessage(value, attributes), errors));
    }
  }

  /**
   * The attribute loop of `compound`: resolves each attribute in order in the
   * one scope and inserts its text under its name.
   */
  method ResolveAttributes(env: Scope, resolve: Resolver, id: string, attributes: seq<Ast.Attribute>)
    returns (texts: map<string, string>)
    modifies env
    ensures texts == AttributeTexts(resolve, env.entries, env.args, id, attributes)
    ensures env.errors == old(env.errors) + AttributeErrors(resolve, env.entries, env.args, id, attributes)
  {
    texts := map[];
    var i := 0;
    while i < |attributes|
      invariant 0 <= i <= |attributes|
      invariant texts == AttributeTexts(resolve, env.entries, env.args, id, attributes[..i])
      invariant env.errors == old(env.errors) + AttributeErrors(resolve, env.entries, env.args, id, attributes[..i])
    {
      var attr := attributes[i];
      var text := env.ResolveValueForEntry(resolve, attr.value, DisplayableNode(id, Some(attr.id)));
      assert attributes[..i + 1][..i] == attributes[..i];
      texts := texts[attr.id := text];
      i := i + 1;
    }
    assert attributes[..i] == attributes;
  }

  /** Moves a scope's errors, converted with `into()`, into the call's error list, keeping their order. */
  method DrainErrors(env: Scope) returns (errors: seq<FluentError>)
    ensures errors == AsFluentErrors(env.errors)
  {
    errors := [];
    var i := 0;
    while i < |env.errors|
      invariant 0 <= i <= |env.errors|
      invariant errors == AsFluentErrors(env.errors[..i])
    {
      errors := errors + [ResolverError(env.errors[i])];
      i := i + 1;
    }
    assert env.errors[..i] == env.errors;
  }
}
