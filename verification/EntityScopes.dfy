/**
 The parser of an external entity starts in the scope in which the entity is referred to: the parser of the document writes
 its bindings into a context string, and the new parser reads them back as inherited bindings.
 */
module EntityScopes {
  import opened NamespaceScopes
  import opened NamespaceStack
  import opened Contexts

  lemma ItemIsPart(piece: string)
    requires NUL !in piece
    ensures var item := ItemOf(piece); item.BindItem? ==> NUL !in item.uri
  {
    hide IndexOf;
  }

  lemma ItemsOnce(context: string)
    requires context != []
    ensures var i := IndexOf(context, CONTEXT_SEP);
            Items(context) == [ItemOf(context[..i])] + Items(if i < |context| then context[i + 1..] else [])
  {
    hide IndexOf, ItemOf;
  }

  lemma {:induction false} ItemsAreParts(context: string)
    requires NUL !in context
    ensures forall item :: item in Items(context) && item.BindItem? ==> NUL !in item.uri
    decreases |context|
  {
    hide IndexOf, ItemOf, Items;
    if context != [] {
      var i := IndexOf(context, CONTEXT_SEP);
      ItemsOnce(context);
      ItemIsPart(context[..i]);
      ItemsAreParts(if i < |context| then context[i + 1..] else []);
    } else {
      NoItems();
    }
  }

  lemma RestoreNext(r: Restored, items: seq<Item>, i: nat, entities: set<string>, separator: string)
    requires i < |items|
    ensures RestoreAll(r, items[i..], entities, separator) ==
            RestoreAll(Restore(r, items[i], entities, separator), items[i + 1..], entities, separator)
  {
    hide Restore;
    assert items[i..][0] == items[i] && items[i..][1..] == items[i + 1..];
  }

  lemma RestoreNone(r: Restored, items: seq<Item>, entities: set<string>, separator: string)
    ensures RestoreAll(r, items[|items|..], entities, separator) == r
  {
  }

  /** setContext on a new parser: each binding of the context is declared, and its entities are marked open. */
  method InheritContext(context: string, entities: set<string>, separator: string)
    returns (ok: bool, p: Parser, open: set<string>)
    requires |separator| <= 1 && NUL !in separator && NUL !in context
    ensures fresh(p) && fresh(p.owned) && fresh(p.buffers)
    ensures ok ==> p.Valid() && p.tagStack == [] && p.events == [] && p.separator == separator
    ensures ok ==> Restored(p.CurrentScope(), open) == RestoreAll(Restored(map[], {}), Items(context), entities, separator)
  {
    hide Items, RestoreAll, Declare, Parser.Valid, Parser.CurrentScope;
    p := new Parser(separator);
    open := {};
    var items := Items(context);
    ItemsAreParts(context);
    var i := 0;
    assert items[0..] == items;
    ok := true;
    while i < |items|
      invariant 0 <= i <= |items| && fresh(p) && fresh(p.owned) && fresh(p.buffers)
      invariant p.Valid() && p.tagStack == [] && p.events == [] && p.separator == separator
      invariant RestoreAll(Restored(p.CurrentScope(), open), items[i..], entities, separator) ==
                RestoreAll(Restored(map[], {}), items, entities, separator)
    {
      RestoreNext(Restored(p.CurrentScope(), open), items, i, entities, separator);
      match items[i] {
        case BindItem(prefix, uri) =>
          assert items[i] in items;
          ok := p.Inherit(Decl(prefix, uri));
          if !ok { return; }
        case OpenItem(name) =>
          if name in entities { open := open + {name}; }
      }
      i := i + 1;
    }
    RestoreNone(Restored(p.CurrentScope(), open), items, entities, separator);
  }

  /** An external entity: its elements get the names that the scope around the reference calls for, and the entities that are
      open there are open here. */
  method ParseEntity(context: string, es: seq<Element>, ghost prefixes: seq<string>, entities: seq<string>, separator: string,
                     ghost scope: Scope, ghost openThere: set<string>)
    returns (ok: bool, p: Parser, open: set<string>)
    requires |separator| <= 1 && NUL !in separator && NUL !in context && forall i :: 0 <= i < |es| ==> NamesOk(es[i])
    requires (forall q :: q in prefixes ==> PlainName(q)) && (forall e :: e in entities ==> PlainName(e))
    requires (forall q :: q in scope ==> q == "" || q in prefixes) && (forall e :: e in openThere ==> e in entities)
    requires ScopeOk(scope, separator) && context == Join(Pieces(prefixes, entities, scope, openThere, separator))
    ensures ok ==> p.Valid() && p.CurrentScope() == scope && open == openThere && p.events == AllEvents(es, scope, separator)
  {
    hide Items, RestoreAll, Join, Pieces, ScopeOk, PlainName, NamesOk, AllEvents, Parser.Valid, Parser.CurrentScope;
    ContextRoundTrip(prefixes, entities, scope, openThere, separator);
    ok, p, open := InheritContext(context, (set e | e in entities), separator);
    if !ok { return; }
    ok := p.ProcessAll(es);
  }
}
