/**
 * Which patterns `format` and `compound` hand to the resolver, and what they
 * build from the resolver's answers, stated as functions on values.
 */
module Lookup {
  import opened Wrappers
  import Ast
  import opened Errors
  import opened Entries
  import opened Paths
  import opened Resolution

  /** The first attribute named `name`, as `iter().find` gives it. */
  function FindAttribute(attributes: seq<Ast.Attribute>, name: string): (r: Option<Ast.Attribute>)
    ensures r.None? <==> forall a :: a in attributes ==> a.id != name
    ensures r.Some? ==> r.value.id == name
    ensures r.Some? ==> exists j :: 0 <= j < |attributes| && attributes[j] == r.value &&
                                    forall k :: 0 <= k < j ==> attributes[k].id != name
  {
    if attributes == [] then None
    else if attributes[0].id == name then Some(attributes[0])
    else
      var r := FindAttribute(attributes[1..], name);
      assert r.Some? ==> exists j :: 1 <= j < |attributes| && attributes[j] == r.value &&
                                     forall k :: 0 <= k < j ==> attributes[k].id != name by {
        if r.Some? {
          var j :| 0 <= j < |attributes[1..]| && attributes[1..][j] == r.value &&
                   forall k :: 0 <= k < j ==> attributes[1..][k].id != name;
          assert attributes[j + 1] == r.value;
          forall k | 0 <= k < j + 1 ensures attributes[k].id != name {
            if k > 0 { assert attributes[k] == attributes[1..][k - 1]; }
          }
        }
      }
      r
  }

  /**
   * The pattern `format` resolves for `path`, with the node it resolves it as.
   * None in exactly three cases: the id before the first '.' is not a message;
   * the path names an attribute the message does not have; the path is a bare
   * id and the message has no value. A named attribute is its first occurrence.
   */
  function SelectPattern(entries: Registry, path: string): (r: Option<(Ast.Pattern, DisplayableNode)>)
    ensures r.None? <==>
      var (id, attribute) := SplitPath(path);
      || GetMessage(entries, id).None?
      || (attribute.Some? && forall a :: a in GetMessage(entries, id).value.attributes ==> a.id != attribute.value)
      || (attribute.None? && GetMessage(entries, id).value.value.None?)
    ensures r.Some? && SplitPath(path).1.None? ==>
      var m := GetMessage(entries, SplitPath(path).0).value;
      r.value == (m.value.value, DisplayableNode(m.id, None))
    ensures r.Some? && SplitPath(path).1.Some? ==>
      var m := GetMessage(entries, SplitPath(path).0).value;
      var name := SplitPath(path).1.value;
      && r.value.1 == DisplayableNode(m.id, Some(name))
      && exists j :: 0 <= j < |m.attributes| && m.attributes[j].id == name && m.attributes[j].value == r.value.0 &&
                     forall k :: 0 <= k < j ==> m.attributes[k].id != name
  {
    var (id, attribute) := SplitPath(path);
    match GetMessage(entries, id)
    case None => None
    case Some(m) =>
      match attribute
      case Some(name) =>
        (match FindAttribute(m.attributes, name)
         case None => None
         case Some(a) => Some((a.value, DisplayableNode(m.id, Some(a.id)))))
      case None =>
        if m.value.Some? then Some((m.value.value, DisplayableNode(m.id, None))) else None
  }

  /** In a registry that keeps entries under their own ids, the node names the message the path names. */
  lemma SelectedNodeNamesPath(entries: Registry, path: string)
    requires Keyed(entries)
    ensures SelectPattern(entries, path).Some? ==>
      SelectPattern(entries, path).value.1 ==
      DisplayableNode(SplitPath(path).0, SplitPath(path).1)
  {
  }

  /** The attribute map `compound` builds: one insertion per attribute, in order. */
  function AttributeTexts(
    resolve: Resolver, entries: Registry, args: Option<Args>, id: string, attributes: seq<Ast.Attribute>)
    : map<string, string>
    decreases |attributes|
  {
    if attributes == [] then map[]
    else
      var last := attributes[|attributes| - 1];
      AttributeTexts(resolve, entries, args, id, attributes[..|attributes| - 1])
        [last.id := resolve(entries, args, last.value, DisplayableNode(id, Some(last.id))).text]
  }

  /** The errors the attributes' resolutions record, attribute by attribute. */
  function AttributeErrors(
    resolve: Resolver, entries: Registry, args: Option<Args>, id: string, attributes: seq<Ast.Attribute>)
    : seq<ResolverError>
    decreases |attributes|
  {
    if attributes == [] then []
    else
      var last := attributes[|attributes| - 1];
      AttributeErrors(resolve, entries, args, id, attributes[..|attributes| - 1])
        + resolve(entries, args, last.value, DisplayableNode(id, Some(last.id))).errors
  }

  /** The keys of the attribute map are exactly the message's attribute names. */
  lemma {:induction false} AttributeTextsKeys(
    resolve: Resolver, entries: Registry, args: Option<Args>, id: string, attributes: seq<Ast.Attribute>)
    ensures AttributeTexts(resolve, entries, args, id, attributes).Keys == set a | a in attributes :: a.id
    decreases |attributes|
  {
    if attributes != [] {
      var prefix := attributes[..|attributes| - 1];
      AttributeTextsKeys(resolve, entries, args, id, prefix);
      assert attributes == prefix + [attributes[|attributes| - 1]];
      assert (set a | a in attributes :: a.id) == (set a | a in prefix :: a.id) + {attributes[|attributes| - 1].id};
    }
  }

  /**
   * Under each name the map holds the text of the last attribute with that
   * name: a later insertion under the same key replaces an earlier one.
   */
  lemma {:induction false} AttributeTextsLastWins(
    resolve: Resolver, entries: Registry, args: Option<Args>, id: string, attributes: seq<Ast.Attribute>, j: nat)
    requires j < |attributes|
    requires forall k :: j < k < |attributes| ==> attributes[k].id != attributes[j].id
    ensures attributes[j].id in AttributeTexts(resolve, entries, args, id, attributes)
    ensures AttributeTexts(resolve, entries, args, id, attributes)[attributes[j].id] ==
            resolve(entries, args, attributes[j].value, DisplayableNode(id, Some(attributes[j].id))).text
    decreases |attributes|
  {
    var n := |attributes|;
    if j < n - 1 {
      var prefix := attributes[..n - 1];
      assert prefix[j] == attributes[j];
      AttributeTextsLastWins(resolve, entries, args, id, prefix, j);
    }
  }

  /**
   * For an attribute whose name occurs once, `format("id.name")` resolves the
   * same pattern as the node `compound(id)` stores under `name`.
   */
  lemma FormatAgreesWithCompound(
    resolve: Resolver, entries: Registry, args: Option<Args>, id: string, m: Ast.Message, j: nat)
    requires GetMessage(entries, id) == Some(m) && '.' !in id
    requires j < |m.attributes|
    requires forall k :: 0 <= k < |m.attributes| && k != j ==> m.attributes[k].id != m.attributes[j].id
    ensures var name := m.attributes[j].id;
      && SelectPattern(entries, id + "." + name) == Some((m.attributes[j].value, DisplayableNode(m.id, Some(name))))
      && name in AttributeTexts(resolve, entries, args, m.id, m.attributes)
      && AttributeTexts(resolve, entries, args, m.id, m.attributes)[name] ==
         resolve(entries, args, m.attributes[j].value, DisplayableNode(m.id, Some(name))).text
  {
    var name := m.attributes[j].id;
    SplitJoinedPath(id, name);
    AttributeTextsLastWins(resolve, entries, args, m.id, m.attributes, j);
  }
}
