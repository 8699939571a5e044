/**
 The context that is handed to the parser of an external entity: the bindings in force and the entities that are open,
 written into one string and read back by the new parser. Tables may be walked in any order.
 */
module Contexts {
  import opened NamespaceScopes

  const CONTEXT_SEP := 12 as char

  // ---------------------------------------------------------------- what a context string means

  datatype Item = BindItem(prefix: string, uri: string) | OpenItem(name: string)

  /** The first place of `c`, or the end. */
  function IndexOf(s: string, c: char): (i: nat)
    ensures i <= |s| && c !in s[..i] && (i < |s| ==> s[i] == c)
  {
    if s == [] || s[0] == c then 0
    else
      var i := IndexOf(s[1..], c);
      assert s[..1 + i] == [s[0]] + s[1..][..i];
      1 + i
  }

  /** A piece with '=' binds a prefix; any other opens an entity. */
  function ItemOf(piece: string): Item {
    var i := IndexOf(piece, '=');
    if i < |piece| then BindItem(piece[..i], piece[i + 1..]) else OpenItem(piece)
  }

  /** The pieces of a context are separated by form feeds; nothing follows a final one. */
  function Items(context: string): seq<Item>
    decreases |context|
  {
    if context == [] then []
    else
      var i := IndexOf(context, CONTEXT_SEP);
      [ItemOf(context[..i])] + Items(if i < |context| then context[i + 1..] else [])
  }

  /** What is restored: the scope, and which of the known entities are open. */
  datatype Restored = Restored(scope: Scope, open: set<string>)

  function Restore(r: Restored, item: Item, entities: set<string>, separator: string): Restored {
    match item
    case BindItem(prefix, uri) => r.(scope := Declare(r.scope, Decl(prefix, uri), separator))
    case OpenItem(name) => if name in entities then r.(open := r.open + {name}) else r
  }

  function RestoreAll(r: Restored, items: seq<Item>, entities: set<string>, separator: string): Restored
    decreases |items|
  {
    if items == [] then r else RestoreAll(Restore(r, items[0], entities, separator), items[1..], entities, separator)
  }

  // ---------------------------------------------------------------- writing

  function Join(pieces: seq<string>): string {
    if pieces == [] then []
    else if |pieces| == 1 then pieces[0]
    else pieces[0] + [CONTEXT_SEP] + Join(pieces[1..])
  }

  /** The URI without the separator that is stored with it. */
  function Uri(stored: string, separator: string): string {
    if |separator| <= |stored| then stored[..|stored| - |separator|] else stored
  }

  function BindPiece(prefix: string, stored: string, separator: string): string {
    prefix + "=" + Uri(stored, separator)
  }

  function BindPieces(prefixes: seq<string>, scope: Scope, separator: string): seq<string> {
    if prefixes == [] then []
    else
      var n := |prefixes| - 1;
      BindPieces(prefixes[..n], scope, separator)
      + (if prefixes[n] in scope then [BindPiece(prefixes[n], scope[prefixes[n]], separator)] else [])
  }

  function OpenPieces(entities: seq<string>, open: set<string>): seq<string> {
    if entities == [] then []
    else
      var n := |entities| - 1;
      OpenPieces(entities[..n], open) + (if entities[n] in open then [entities[n]] else [])
  }

  /** The default namespace first, then the other prefixes and the entities in the order of their tables. */
  function Pieces(prefixes: seq<string>, entities: seq<string>, scope: Scope, open: set<string>, separator: string): seq<string> {
    BindPieces([""] + prefixes, scope, separator) + OpenPieces(entities, open)
  }

  lemma {:induction false} JoinSnoc(pieces: seq<string>, p: string)
    ensures Join(pieces + [p]) == (if pieces == [] then p else Join(pieces) + [CONTEXT_SEP] + p)
    decreases |pieces|
  {
    if |pieces| == 1 {
      assert (pieces + [p])[1..] == [p];
    } else if |pieces| > 1 {
      assert (pieces + [p])[1..] == pieces[1..] + [p];
      JoinSnoc(pieces[1..], p);
    }
  }

  /** One more piece, behind a separator unless it is the first. */
  method AppendPiece(context: string, needSep: bool, piece: string, ghost pieces: seq<string>) returns (context': string)
    requires context == Join(pieces) && needSep == (pieces != [])
    ensures context' == Join(pieces + [piece])
  {
    JoinSnoc(pieces, piece);
    context' := if needSep then context + [CONTEXT_SEP] else context;
    assert !needSep ==> context + piece == piece;
    context' := context' + piece;
  }

  /** The walk over the prefix table, after the default namespace. */
  method GetBindings(prefixes: seq<string>, scope: Scope, separator: string) returns (context: string, needSep: bool)
    ensures context == Join(BindPieces([""] + prefixes, scope, separator))
    ensures needSep == (BindPieces([""] + prefixes, scope, separator) != [])
  {
    hide Join;
    NoPieces();
    ghost var all := [""] + prefixes;
    ghost var pieces: seq<string> := [];
    context, needSep := [], false;
    assert all[..0] == [];
    if "" in scope {
      BindSnoc([], "", scope, separator);
      context := AppendPiece(context, needSep, BindPiece("", scope[""], separator), pieces);
      needSep, pieces := true, pieces + [BindPiece("", scope[""], separator)];
    } else {
      BindSnoc([], "", scope, separator);
    }
    assert all[..1] == [] + [""];
    var i := 0;
    while i < |prefixes|
      invariant 0 <= i <= |prefixes|
      invariant pieces == BindPieces(all[..i + 1], scope, separator)
      invariant context == Join(pieces) && needSep == (pieces != [])
    {
      BindSnoc(all[..i + 1], prefixes[i], scope, separator);
      assert all[..i + 2] == all[..i + 1] + [prefixes[i]];
      if prefixes[i] in scope {
        context := AppendPiece(context, needSep, BindPiece(prefixes[i], scope[prefixes[i]], separator), pieces);
        needSep, pieces := true, pieces + [BindPiece(prefixes[i], scope[prefixes[i]], separator)];
      }
      i := i + 1;
    }
    assert all[..|prefixes| + 1] == all;
  }

  lemma NoPieces()
    ensures Join([]) == []
  {
  }

  lemma BindSnoc(prefixes: seq<string>, p: string, scope: Scope, separator: string)
    ensures BindPieces(prefixes + [p], scope, separator) ==
            BindPieces(prefixes, scope, separator) + (if p in scope then [BindPiece(p, scope[p], separator)] else [])
  {
    assert (prefixes + [p])[..|prefixes|] == prefixes;
  }

  lemma OpenSnoc(entities: seq<string>, e: string, open: set<string>)
    ensures OpenPieces(entities + [e], open) == OpenPieces(entities, open) + (if e in open then [e] else [])
  {
    assert (entities + [e])[..|entities|] == entities;
  }

  /** getContext: walks the two tables. `prefixes` are the names of the prefix table, bound or not. */
  method GetContext(prefixes: seq<string>, entities: seq<string>, scope: Scope, open: set<string>, separator: string) returns (context: string)
    ensures context == Join(Pieces(prefixes, entities, scope, open, separator))
  {
    hide Join, BindPieces;
    var needSep;
    context, needSep := GetBindings(prefixes, scope, separator);
    ghost var bindings := BindPieces([""] + prefixes, scope, separator);
    ghost var pieces := bindings;
    var i := 0;
    assert entities[..0] == [] && bindings + [] == bindings;
    while i < |entities|
      invariant 0 <= i <= |entities|
      invariant pieces == bindings + OpenPieces(entities[..i], open)
      invariant context == Join(pieces) && needSep == (pieces != [])
    {
      OpenSnoc(entities[..i], entities[i], open);
      assert entities[..i + 1] == entities[..i] + [entities[i]];
      if entities[i] in open {
        context := AppendPiece(context, needSep, entities[i], pieces);
        assert bindings + (OpenPieces(entities[..i], open) + [entities[i]]) == pieces + [entities[i]];
        needSep, pieces := true, pieces + [entities[i]];
      }
      i := i + 1;
    }
    assert entities[..|entities|] == entities;
  }

  // ---------------------------------------------------------------- reading

  /** Names of prefixes and entities that can be told apart in a context. */
  predicate PlainName(name: string) {
    name != [] && '=' !in name && CONTEXT_SEP !in name && NUL !in name
  }

  predicate PlainPiece(piece: string) {
    piece != [] && CONTEXT_SEP !in piece
  }

  lemma IndexIs(s: string, c: char, i: nat)
    requires i <= |s| && c !in s[..i] && (i < |s| ==> s[i] == c)
    ensures IndexOf(s, c) == i
  {
    var j := IndexOf(s, c);
    assert forall k :: 0 <= k < i ==> s[k] == s[..i][k] != c;
    assert forall k :: 0 <= k < j ==> s[k] == s[..j][k] != c;
  }

  lemma IndexIn(s: string, t: string, c: char)
    requires c !in s && (t == [] || t[0] == c)
    ensures IndexOf(s + t, c) == |s|
  {
    assert (s + t)[..|s|] == s;
    IndexIs(s + t, c, |s|);
  }

  /** Reading a joined context gives back its pieces. */
  lemma {:induction false} ItemsOfJoin(pieces: seq<string>)
    requires forall k :: 0 <= k < |pieces| ==> PlainPiece(pieces[k])
    ensures |Items(Join(pieces))| == |pieces| && forall k :: 0 <= k < |pieces| ==> Items(Join(pieces))[k] == ItemOf(pieces[k])
    decreases |pieces|
  {
    hide ItemOf;
    if pieces != [] {
      var p, rest, c := pieces[0], pieces[1..], Join(pieces);
      if |pieces| == 1 {
        IndexIn(p, [], CONTEXT_SEP);
        assert p + [] == p && c == p && c[..|p|] == p;
      } else {
        IndexIn(p, [CONTEXT_SEP] + Join(rest), CONTEXT_SEP);
        assert c == p + ([CONTEXT_SEP] + Join(rest));
        assert c[..|p|] == p && c[|p| + 1..] == Join(rest);
        ItemsOfJoin(rest);
      }
    }
  }

  lemma BindItemOf(prefix: string, uri: string)
    requires '=' !in prefix
    ensures ItemOf(prefix + "=" + uri) == BindItem(prefix, uri)
  {
    assert prefix + "=" + uri == prefix + ("=" + uri);
    IndexIn(prefix, "=" + uri, '=');
    var piece := prefix + "=" + uri;
    assert piece[..|prefix|] == prefix && piece[|prefix| + 1..] == uri;
  }

  lemma OpenItemOf(name: string)
    requires '=' !in name
    ensures ItemOf(name) == OpenItem(name)
  {
    var i := IndexOf(name, '=');
    assert !(i < |name|);
  }

  lemma RestoreOnce(r: Restored, context: string, i: nat, entities: set<string>, separator: string)
    requires context != [] && i <= |context| && CONTEXT_SEP !in context[..i] && (i < |context| ==> context[i] == CONTEXT_SEP)
    ensures RestoreAll(r, Items(context), entities, separator) ==
            RestoreAll(Restore(r, ItemOf(context[..i]), entities, separator),
                       Items(if i < |context| then context[i + 1..] else []), entities, separator)
  {
    hide ItemOf, Restore;
    IndexIs(context, CONTEXT_SEP, i);
    var rest := Items(if i < |context| then context[i + 1..] else []);
    assert ([ItemOf(context[..i])] + rest)[1..] == rest;
  }

  /** setContext: one cursor looks for the end of a name, the other marks where the piece began. */
  method SetContext(context: string, entities: set<string>, separator: string) returns (r: Restored)
    ensures r == RestoreAll(Restored(map[], {}), Items(context), entities, separator)
  {
    hide Items, RestoreAll, Restore, ItemOf;
    r := Restored(map[], {});
    var start, s, pool := 0, 0, [];
    ghost var all := RestoreAll(r, Items(context), entities, separator);
    assert context[0..] == context;
    while start < |context|
      invariant start <= s <= |context| && pool == context[start..s] && CONTEXT_SEP !in pool && '=' !in pool
      invariant RestoreAll(r, Items(context[start..]), entities, separator) == all
      decreases |context| - start, |context| - s
    {
      ghost var piece := context[start..];
      assert piece[..s - start] == pool;
      if s == |context| || context[s] == CONTEXT_SEP {
        RestoreOnce(r, piece, s - start, entities, separator);
        OpenItemOf(pool);
        RestoreOpen(r, pool, entities, separator);
        if pool in entities { r := r.(open := r.open + {pool}); }
        Skip(context, start, s);
        if s < |context| { s := s + 1; }
        start, pool := s, [];
      } else if context[s] == '=' {
        var end, uri := ReadUri(context, s + 1);
        assert piece[..end - start] == pool + "=" + uri;
        RestoreOnce(r, piece, end - start, entities, separator);
        BindItemOf(pool, uri);
        RestoreBind(r, pool, uri, entities, separator);
        r := r.(scope := Declare(r.scope, Decl(pool, uri), separator));
        Skip(context, start, end);
        start := if end < |context| then end + 1 else end;
        s, pool := start, [];
      } else {
        pool := pool + [context[s]];
        s := s + 1;
      }
    }
    NothingLeft(r, entities, separator);
    assert context[start..] == [];
  }

  /** What is behind a piece, and its separator if there is one. */
  lemma Skip(context: string, start: nat, end: nat)
    requires start <= end <= |context|
    ensures (if end - start < |context[start..]| then context[start..][end - start + 1..] else []) ==
            context[if end < |context| then end + 1 else end..]
  {
  }

  lemma NothingLeft(r: Restored, entities: set<string>, separator: string)
    ensures RestoreAll(r, Items([]), entities, separator) == r
  {
  }

  lemma RestoreOpen(r: Restored, name: string, entities: set<string>, separator: string)
    ensures Restore(r, OpenItem(name), entities, separator) == if name in entities then r.(open := r.open + {name}) else r
  {
  }

  lemma RestoreBind(r: Restored, prefix: string, uri: string, entities: set<string>, separator: string)
    ensures Restore(r, BindItem(prefix, uri), entities, separator) == r.(scope := Declare(r.scope, Decl(prefix, uri), separator))
  {
  }

  /** The URI of a binding, up to a separator or the end. */
  method ReadUri(context: string, start: nat) returns (end: nat, uri: string)
    requires start <= |context|
    ensures start <= end <= |context| && uri == context[start..end] && CONTEXT_SEP !in uri
    ensures end < |context| ==> context[end] == CONTEXT_SEP
  {
    end, uri := start, [];
    while end < |context| && context[end] != CONTEXT_SEP
      invariant start <= end <= |context| && uri == context[start..end] && CONTEXT_SEP !in uri
    {
      uri := uri + [context[end]];
      end := end + 1;
    }
  }

  // ---------------------------------------------------------------- the round trip

  function ItemsOf(pieces: seq<string>): seq<Item> {
    if pieces == [] then [] else ItemsOf(pieces[..|pieces| - 1]) + [ItemOf(pieces[|pieces| - 1])]
  }

  lemma {:induction false} ItemsOfAt(pieces: seq<string>, k: nat)
    requires k < |pieces|
    ensures |ItemsOf(pieces)| == |pieces| && ItemsOf(pieces)[k] == ItemOf(pieces[k])
    decreases |pieces|
  {
    if |pieces| > 1 { ItemsOfAt(pieces[..|pieces| - 1], if k < |pieces| - 1 then k else 0); }
  }

  lemma ItemsSnoc(pieces: seq<string>, p: string)
    ensures ItemsOf(pieces + [p]) == ItemsOf(pieces) + [ItemOf(p)]
  {
    assert (pieces + [p])[..|pieces|] == pieces;
  }

  lemma {:induction false} RestoreSnoc(r: Restored, items: seq<Item>, item: Item, entities: set<string>, separator: string)
    ensures RestoreAll(r, items + [item], entities, separator) == Restore(RestoreAll(r, items, entities, separator), item, entities, separator)
    decreases |items|
  {
    if items == [] {
      assert items + [item] == [item] && [item][1..] == [];
    } else {
      assert (items + [item])[1..] == items[1..] + [item];
      RestoreSnoc(Restore(r, items[0], entities, separator), items[1..], item, entities, separator);
    }
  }

  /** What a scope holds if it came from declarations: URIs with the separator, and no empty default namespace. */
  predicate ScopeOk(scope: Scope, separator: string) {
    forall p :: p in scope ==>
      && separator <= scope[p][|Uri(scope[p], separator)|..] && |separator| <= |scope[p]|
      && CONTEXT_SEP !in Uri(scope[p], separator)
      && (p == "" ==> Uri(scope[p], separator) != "")
  }

  function Part(scope: Scope, prefixes: seq<string>): Scope {
    map p | p in scope && p in prefixes :: scope[p]
  }

  lemma UriBack(v: string, separator: string)
    requires |separator| <= |v| && separator <= v[|Uri(v, separator)|..]
    ensures Uri(v, separator) + separator == v
  {
  }

  lemma RestoreBinding(scope: Scope, done: Scope, p: string, entities: set<string>, separator: string)
    requires ScopeOk(scope, separator) && p in scope && '=' !in p
    ensures Restore(Restored(done, {}), ItemOf(BindPiece(p, scope[p], separator)), entities, separator) == Restored(done[p := scope[p]], {})
    ensures PlainPiece(BindPiece(p, scope[p], separator)) || CONTEXT_SEP in p
  {
    hide IndexOf, ItemOf, Uri;
    BindItemOf(p, Uri(scope[p], separator));
    UriBack(scope[p], separator);
  }

  lemma PartSnoc(scope: Scope, prefixes: seq<string>, p: string)
    ensures Part(scope, prefixes + [p]) == if p in scope then Part(scope, prefixes)[p := scope[p]] else Part(scope, prefixes)
  {
  }

  /** The bindings come back one after the other. */
  lemma {:induction false} BindingsBack(prefixes: seq<string>, scope: Scope, entities: set<string>, separator: string)
    requires ScopeOk(scope, separator) && forall p :: p in prefixes ==> '=' !in p && CONTEXT_SEP !in p
    ensures RestoreAll(Restored(map[], {}), ItemsOf(BindPieces(prefixes, scope, separator)), entities, separator) == Restored(Part(scope, prefixes), {})
    ensures forall piece :: piece in BindPieces(prefixes, scope, separator) ==> PlainPiece(piece)
    decreases |prefixes|
  {
    hide Restore, ScopeOk, ItemOf, BindPiece, Part, PlainPiece, RestoreAll, BindPieces, ItemsOf;
    if prefixes == [] {
      NothingBack(scope, entities, separator);
    } else {
      var n := |prefixes| - 1;
      var front, p := prefixes[..n], prefixes[n];
      assert prefixes == front + [p] && p in prefixes;
      BindingsBack(front, scope, entities, separator);
      BindSnoc(front, p, scope, separator);
      PartSnoc(scope, front, p);
      if p in scope {
        var pieces, piece := BindPieces(front, scope, separator), BindPiece(p, scope[p], separator);
        RestoreBinding(scope, Part(scope, front), p, entities, separator);
        ItemsSnoc(pieces, piece);
        RestoreSnoc(Restored(map[], {}), ItemsOf(pieces), ItemOf(piece), entities, separator);
      } else {
        assert BindPieces(front, scope, separator) + [] == BindPieces(front, scope, separator);
      }
    }
  }

  lemma NothingBack(scope: Scope, entities: set<string>, separator: string)
    ensures BindPieces([], scope, separator) == [] && ItemsOf([]) == [] && Part(scope, []) == map[]
    ensures RestoreAll(Restored(map[], {}), [], entities, separator) == Restored(map[], {})
  {
  }

  function OpenPart(entities: seq<string>, open: set<string>): set<string> {
    set e | e in entities && e in open
  }

  lemma OpenPartSnoc(entities: seq<string>, e: string, open: set<string>)
    ensures OpenPart(entities + [e], open) == OpenPart(entities, open) + (if e in open then {e} else {})
  {
  }

  /** And so do the open entities. */
  lemma {:induction false} EntitiesBack(pieces: seq<string>, scope: Scope, entities: seq<string>, open: set<string>, known: set<string>, separator: string)
    requires RestoreAll(Restored(map[], {}), ItemsOf(pieces), known, separator) == Restored(scope, {})
    requires (forall e :: e in entities ==> PlainName(e) && e in known) && forall p :: p in pieces ==> PlainPiece(p)
    ensures RestoreAll(Restored(map[], {}), ItemsOf(pieces + OpenPieces(entities, open)), known, separator) ==
            Restored(scope, OpenPart(entities, open))
    ensures forall p :: p in pieces + OpenPieces(entities, open) ==> PlainPiece(p)
    decreases |entities|
  {
    hide ItemOf, OpenPart, RestoreAll, OpenPieces, ItemsOf;
    if entities == [] {
      NothingOpenBack(open);
      assert pieces + [] == pieces;
    } else {
      var n := |entities| - 1;
      var front, e := entities[..n], entities[n];
      assert entities == front + [e] && e in entities;
      EntitiesBack(pieces, scope, front, open, known, separator);
      OpenSnoc(front, e, open);
      OpenPartSnoc(front, e, open);
      var before := pieces + OpenPieces(front, open);
      if e in open {
        assert pieces + OpenPieces(entities, open) == before + [e];
        ItemsSnoc(before, e);
        OpenItemOf(e);
        RestoreSnoc(Restored(map[], {}), ItemsOf(before), ItemOf(e), known, separator);
      } else {
        assert pieces + OpenPieces(entities, open) == before;
      }
    }
  }

  lemma NothingOpenBack(open: set<string>)
    ensures OpenPieces([], open) == [] && OpenPart([], open) == {}
  {
  }

  /** Round trip: whatever the order of the tables, the new parser has the same bindings and the same open entities. */
  lemma ContextRoundTrip(prefixes: seq<string>, entities: seq<string>, scope: Scope, open: set<string>, separator: string)
    requires (forall p :: p in prefixes ==> PlainName(p)) && (forall e :: e in entities ==> PlainName(e))
    requires (forall p :: p in scope ==> p == "" || p in prefixes) && (forall e :: e in open ==> e in entities)
    requires ScopeOk(scope, separator)
    ensures var context := Join(Pieces(prefixes, entities, scope, open, separator));
            RestoreAll(Restored(map[], {}), Items(context), (set e | e in entities), separator) == Restored(scope, open)
  {
    var known := set e | e in entities;
    var all := [""] + prefixes;
    var bindings := BindPieces(all, scope, separator);
    BindingsBack(all, scope, known, separator);
    assert Part(scope, all) == scope;
    EntitiesBack(bindings, scope, entities, open, known, separator);
    assert OpenPart(entities, open) == open;
    SamePieces(Pieces(prefixes, entities, scope, open, separator));
  }

  lemma SamePieces(pieces: seq<string>)
    requires forall p :: p in pieces ==> PlainPiece(p)
    ensures Items(Join(pieces)) == ItemsOf(pieces)
  {
    hide Items, ItemOf, Join, ItemsOf;
    ItemsOfJoin(pieces);
    if pieces == [] { NoPieces(); NoItems(); } else { ItemsOfAt(pieces, 0); }
    forall k | 0 <= k < |pieces| ensures Items(Join(pieces))[k] == ItemsOf(pieces)[k] { ItemsOfAt(pieces, k); }
  }

  lemma NoItems()
    ensures Items([]) == [] && ItemsOf([]) == []
  {
  }
}
