/**
 * What `add_resource` does to the registry, stated as functions on values.
 * `LoadFrom` follows the source's loop one resource entry at a time; `Rejected`
 * and `FirstDeclaration` are independent, front-to-back definitions of the
 * errors it reports and of the entry that ends up under each id, and the
 * lemmas below show the two agree.
 */
module Loading {
  import opened Wrappers
  import opened Errors
  import Ast
  import opened Entries

  /** A resource entry that adds to the registry: its id, the entry, and its kind name. */
  datatype Declaration = Declaration(id: string, entry: Entry, kind: string)

  /** Messages and terms declare; comments and junk are skipped. */
  function Declared(item: Ast.ResourceEntry): (r: Option<Declaration>)
    ensures r.Some? <==> item.EntryItem? && !item.entry.CommentEntry?
  {
    match item
    case EntryItem(MessageEntry(m)) => Some(Declaration(m.id, Message(m), "message"))
    case EntryItem(TermEntry(t)) => Some(Declaration(t.id, Term(t), "term"))
    case _ => None
  }

  /** The registry and the errors gathered so far. */
  datatype Loaded = Loaded(entries: Registry, errors: seq<FluentError>)

  /** One iteration of the loading loop: insert into a vacant id, report an occupied one. */
  function Step(acc: Loaded, item: Ast.ResourceEntry): Loaded {
    match Declared(item)
    case None => acc
    case Some(d) =>
      if d.id in acc.entries then Loaded(acc.entries, acc.errors + [Overriding(d.kind, d.id)])
      else Loaded(acc.entries[d.id := d.entry], acc.errors)
  }

  /** The loop run over `body` from the state `acc`. */
  function LoadFrom(acc: Loaded, body: seq<Ast.ResourceEntry>): Loaded
    decreases |body|
  {
    if body == [] then acc
    else Step(LoadFrom(acc, body[..|body| - 1]), body[|body| - 1])
  }

  /** `add_resource` starts with no errors. */
  function Load(entries: Registry, body: seq<Ast.ResourceEntry>): Loaded {
    LoadFrom(Loaded(entries, []), body)
  }

  // ----- Reference definitions, read front to back -----

  /** The entry the first declaration of `id` in `body` would store. */
  function FirstDeclaration(body: seq<Ast.ResourceEntry>, id: string): Option<Entry>
    decreases |body|
  {
    if body == [] then None
    else if Declared(body[0]).Some? && Declared(body[0]).value.id == id then Some(Declared(body[0]).value.entry)
    else FirstDeclaration(body[1..], id)
  }

  /** One `Overriding` error per declaration whose id is already known, in order. */
  function Rejected(known: set<string>, body: seq<Ast.ResourceEntry>): seq<FluentError>
    decreases |body|
  {
    if body == [] then []
    else
      match Declared(body[0])
      case None => Rejected(known, body[1..])
      case Some(d) =>
        if d.id in known then [Overriding(d.kind, d.id)] + Rejected(known, body[1..])
        else Rejected(known + {d.id}, body[1..])
  }

  /** Whether the declaration at index `i` meets an id already in `known` or declared before it. */
  ghost predicate Collides(known: set<string>, body: seq<Ast.ResourceEntry>, i: nat)
    requires i < |body|
  {
    Declared(body[i]).Some? &&
    (Declared(body[i]).value.id in known ||
     exists j :: 0 <= j < i && Declared(body[j]).Some? && Declared(body[j]).value.id == Declared(body[i]).value.id)
  }

  // ----- The loop agrees with the reference definitions -----

  /** Running the loop over `[x] + rest` is doing `x` first, then the rest. */
  lemma {:induction false} LoadFromCons(acc: Loaded, x: Ast.ResourceEntry, rest: seq<Ast.ResourceEntry>)
    ensures LoadFrom(acc, [x] + rest) == LoadFrom(Step(acc, x), rest)
    decreases |rest|
  {
    if rest == [] {
      assert ([x] + rest)[..0] == [];
    } else {
      var n := |rest|;
      assert ([x] + rest)[..n] == [x] + rest[..n - 1];
      LoadFromCons(acc, x, rest[..n - 1]);
    }
  }

  /** The errors are those already gathered followed by one per rejected declaration. */
  lemma {:induction false} LoadFromErrors(acc: Loaded, body: seq<Ast.ResourceEntry>)
    ensures LoadFrom(acc, body).errors == acc.errors + Rejected(acc.entries.Keys, body)
    decreases |body|
  {
    if body == [] {
    } else {
      assert body == [body[0]] + body[1..];
      LoadFromCons(acc, body[0], body[1..]);
      LoadFromErrors(Step(acc, body[0]), body[1..]);
      match Declared(body[0])
      case None =>
      case Some(d) =>
        if d.id !in acc.entries {
          assert Step(acc, body[0]).entries.Keys == acc.entries.Keys + {d.id};
        }
    }
  }

  /** First writer wins: an id keeps its existing entry, or gets its first declaration. */
  lemma {:induction false} LoadFromEntries(acc: Loaded, body: seq<Ast.ResourceEntry>, k: string)
    ensures k in LoadFrom(acc, body).entries <==> k in acc.entries || FirstDeclaration(body, k).Some?
    ensures k in LoadFrom(acc, body).entries ==>
      LoadFrom(acc, body).entries[k] == if k in acc.entries then acc.entries[k] else FirstDeclaration(body, k).value
    decreases |body|
  {
    if body != [] {
      assert body == [body[0]] + body[1..];
      LoadFromCons(acc, body[0], body[1..]);
      LoadFromEntries(Step(acc, body[0]), body[1..], k);
    }
  }

  // ----- What add_resource promises -----

  /** The errors `add_resource` reports are exactly the rejected declarations, in resource order. */
  lemma LoadErrorsAreRejections(entries: Registry, body: seq<Ast.ResourceEntry>)
    ensures Load(entries, body).errors == Rejected(entries.Keys, body)
  {
    LoadFromErrors(Loaded(entries, []), body);
  }

  /** Loading never removes or replaces an entry. */
  lemma LoadExtends(entries: Registry, body: seq<Ast.ResourceEntry>)
    ensures Extends(entries, Load(entries, body).entries)
  {
    forall k | k in entries
      ensures k in Load(entries, body).entries && Load(entries, body).entries[k] == entries[k]
    {
      LoadFromEntries(Loaded(entries, []), body, k);
    }
  }

  /** The ids after loading are the old ones plus every declared id, each holding its first declaration. */
  lemma LoadFirstWriterWins(entries: Registry, body: seq<Ast.ResourceEntry>, k: string)
    ensures k in Load(entries, body).entries <==> k in entries || FirstDeclaration(body, k).Some?
    ensures k !in entries && FirstDeclaration(body, k).Some? ==>
      Load(entries, body).entries[k] == FirstDeclaration(body, k).value
  {
    LoadFromEntries(Loaded(entries, []), body, k);
  }

  /** Every message and term stays stored under its own id. */
  lemma {:induction false} LoadFromKeepsKeyed(acc: Loaded, body: seq<Ast.ResourceEntry>)
    requires Keyed(acc.entries)
    ensures Keyed(LoadFrom(acc, body).entries)
    decreases |body|
  {
    if body != [] {
      LoadFromKeepsKeyed(acc, body[..|body| - 1]);
    }
  }

  /** Comments and junk anywhere in a resource make no difference to loading. */
  lemma {:induction false} LoadSkipsNonDeclarations(
    acc: Loaded, front: seq<Ast.ResourceEntry>, item: Ast.ResourceEntry, back: seq<Ast.ResourceEntry>)
    requires Declared(item).None?
    ensures LoadFrom(acc, front + [item] + back) == LoadFrom(acc, front + back)
    decreases |back|
  {
    if back == [] {
      assert (front + [item] + back)[..|front|] == front;
      assert front + back == front;
    } else {
      var n := |back|;
      assert (front + [item] + back)[..|front| + n] == front + [item] + back[..n - 1];
      assert (front + back)[..|front| + n - 1] == front + back[..n - 1];
      LoadSkipsNonDeclarations(acc, front, item, back[..n - 1]);
    }
  }

  /** No errors are reported exactly when no declaration collides. */
  lemma {:induction false} RejectedEmptyIff(known: set<string>, body: seq<Ast.ResourceEntry>)
    ensures Rejected(known, body) == [] <==> forall i :: 0 <= i < |body| ==> !Collides(known, body, i)
    decreases |body|
  {
    if body != [] {
      var rest := body[1..];
      match Declared(body[0])
      case None =>
        RejectedEmptyIff(known, rest);
        forall i | 1 <= i < |body|
          ensures Collides(known, body, i) <==> Collides(known, rest, i - 1)
        {
          CollidesShift(known, known, body, i);
        }
        assert !Collides(known, body, 0);
        assert Rejected(known, body) == Rejected(known, rest);
        if forall i :: 0 <= i < |body| ==> !Collides(known, body, i) {
          forall i | 0 <= i < |rest| ensures !Collides(known, rest, i) {
            assert !Collides(known, body, i + 1);
          }
        }
      case Some(d) =>
        if d.id in known {
          assert Collides(known, body, 0);
        } else {
          RejectedEmptyIff(known + {d.id}, rest);
          forall i | 1 <= i < |body|
            ensures Collides(known, body, i) <==> Collides(known + {d.id}, rest, i - 1)
          {
            CollidesShift(known, known + {d.id}, body, i);
          }
          assert !Collides(known, body, 0);
          assert Rejected(known, body) == Rejected(known + {d.id}, rest);
          if forall i :: 0 <= i < |body| ==> !Collides(known, body, i) {
            forall i | 0 <= i < |rest| ensures !Collides(known + {d.id}, rest, i) {
              assert !Collides(known, body, i + 1);
            }
          }
        }
    }
  }

  /** Dropping the first entry of `body` moves its id, if any, into the known set. */
  lemma CollidesShift(known: set<string>, known': set<string>, body: seq<Ast.ResourceEntry>, i: nat)
    requires 1 <= i < |body|
    requires known' == if Declared(body[0]).Some? then known + {Declared(body[0]).value.id} else known
    ensures Collides(known, body, i) <==> Collides(known', body[1..], i - 1)
  {
  }

  /** A declaration with no earlier declaration of its id is the first declaration of that id. */
  lemma {:induction false} FirstDeclarationAt(body: seq<Ast.ResourceEntry>, i: nat)
    requires i < |body| && Declared(body[i]).Some?
    requires forall j :: 0 <= j < i && Declared(body[j]).Some? ==> Declared(body[j]).value.id != Declared(body[i]).value.id
    ensures FirstDeclaration(body, Declared(body[i]).value.id) == Some(Declared(body[i]).value.entry)
  {
    if i > 0 {
      assert body[1..][i - 1] == body[i];
      forall j | 0 <= j < i - 1 && Declared(body[1..][j]).Some?
        ensures Declared(body[1..][j]).value.id != Declared(body[i]).value.id
      {
        assert body[1..][j] == body[j + 1];
      }
      FirstDeclarationAt(body[1..], i - 1);
    }
  }

  /** After a load that reported no error, every declaration in the resource is what its id holds. */
  lemma LoadedDeclarationsAreStored(entries: Registry, body: seq<Ast.ResourceEntry>, i: nat)
    requires Load(entries, body).errors == []
    requires i < |body| && Declared(body[i]).Some?
    ensures Declared(body[i]).value.id in Load(entries, body).entries
    ensures Load(entries, body).entries[Declared(body[i]).value.id] == Declared(body[i]).value.entry
  {
    LoadErrorsAreRejections(entries, body);
    RejectedEmptyIff(entries.Keys, body);
    assert !Collides(entries.Keys, body, i);
    FirstDeclarationAt(body, i);
    LoadFirstWriterWins(entries, body, Declared(body[i]).value.id);
  }

  /** After a load that reported no error, every message of the resource is found under its id. */
  lemma LoadedMessagesAreFound(entries: Registry, body: seq<Ast.ResourceEntry>, m: Ast.Message)
    requires Load(entries, body).errors == []
    requires Ast.EntryItem(Ast.MessageEntry(m)) in body
    ensures GetMessage(Load(entries, body).entries, m.id) == Some(m)
  {
    var i :| 0 <= i < |body| && body[i] == Ast.EntryItem(Ast.MessageEntry(m));
    LoadedDeclarationsAreStored(entries, body, i);
  }
}
